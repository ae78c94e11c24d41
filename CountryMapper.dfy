/**
  The mapper from the wire shape `{iso2, name, language}` of a country to the
  view shape `{code, label, locale}` (the field `label` is `labelText` here,
  since `label` is a Dafny keyword): a field renaming applied to every
  element, one to one and in order.
 */
module CountryMapper {

  datatype CountryTableDto = CountryTableDto(iso2: string, name: string, language: string)

  datatype CountryTable = CountryTable(code: string, labelText: string, locale: string)

  /** The object literal built for one element. */
  function ToEntity(dto: CountryTableDto): (e: CountryTable)
    ensures e.code == dto.iso2 && e.labelText == dto.name && e.locale == dto.language
  {
    CountryTable(dto.iso2, dto.name, dto.language)
  }

  /** `dtos.map(...)`: one view record per wire record, at the same index. */
  function ToCountryTableEntities(dtos: seq<CountryTableDto>): (r: seq<CountryTable>)
    ensures |r| == |dtos|
    ensures forall i :: 0 <= i < |dtos| ==> r[i].code == dtos[i].iso2
    ensures forall i :: 0 <= i < |dtos| ==> r[i].labelText == dtos[i].name && r[i].locale == dtos[i].language
  {
    if dtos == [] then []
    else [ToEntity(dtos[0])] + ToCountryTableEntities(dtos[1..])
  }

  /** The renaming backwards, from view record to wire record. */
  function ToDto(e: CountryTable): (dto: CountryTableDto)
  {
    CountryTableDto(e.code, e.labelText, e.locale)
  }

  function ToDtos(es: seq<CountryTable>): (r: seq<CountryTableDto>)
    ensures |r| == |es|
  {
    if es == [] then []
    else [ToDto(es[0])] + ToDtos(es[1..])
  }

  /** Nothing is lost: mapping back gives the original wire records. */
  lemma {:induction false} MapperRoundTrip(dtos: seq<CountryTableDto>)
    ensures ToDtos(ToCountryTableEntities(dtos)) == dtos
  {
    if dtos != [] {
      MapperRoundTrip(dtos[1..]);
      assert dtos == [dtos[0]] + dtos[1..];
    }
  }

  /** Mapping distributes over concatenation: each element is mapped on its own. */
  lemma {:induction false} MapperDistributes(xs: seq<CountryTableDto>, ys: seq<CountryTableDto>)
    ensures ToCountryTableEntities(xs + ys) == ToCountryTableEntities(xs) + ToCountryTableEntities(ys)
  {
    if xs != [] {
      assert (xs + ys)[1..] == xs[1..] + ys;
      MapperDistributes(xs[1..], ys);
    }
  }

  /** Different inputs map to different outputs. */
  lemma MapperInjective(xs: seq<CountryTableDto>, ys: seq<CountryTableDto>)
    requires ToCountryTableEntities(xs) == ToCountryTableEntities(ys)
    ensures xs == ys
  {
    MapperRoundTrip(xs);
    MapperRoundTrip(ys);
  }

  /** An empty list maps to an empty list. */
  lemma MapperEmpty()
    ensures ToCountryTableEntities([]) == []
  {
  }
}
