/** The condition lookup (`searchCondition`): the first reference entry whose lower-cased name equals
    the trimmed, lower-cased query. The reference data, fetched over the network by the page, is a
    parameter: `None` stands for a failed fetch or parse. */
module Lookup {
  import opened Wrappers
  import Text

  /** One entry of the reference data. */
  datatype ConditionInfo = ConditionInfo(name: string, imagesrc: Option<string>, symptoms: seq<string>,
                                         prevention: seq<string>, treatment: string)

  /** What the result panel shows: the prompt for a blank query, the matching entry, "not found",
      or the loading error. */
  datatype Outcome = Prompt | Found(info: ConditionInfo) | NotFound | LoadError

  /** `data.conditions.find(c => c.name.toLowerCase() === q)`. */
  function FindCondition(cs: seq<ConditionInfo>, q: string): (r: Option<nat>)
    ensures r.Some? ==> r.value < |cs| && Text.Lower(cs[r.value].name) == q
    ensures r.Some? ==> forall j :: 0 <= j < r.value ==> Text.Lower(cs[j].name) != q
    ensures r.None? <==> forall j :: 0 <= j < |cs| ==> Text.Lower(cs[j].name) != q
  {
    if |cs| == 0 then None
    else if Text.Lower(cs[0].name) == q then Some(0)
    else match FindCondition(cs[1..], q)
      case None => None
      case Some(k) => Some(k + 1)
  }

  /** `searchCondition`: a blank query prompts without consulting the data; otherwise an exact,
      case-insensitive name match against the loaded entries. */
  function Search(input: string, data: Option<seq<ConditionInfo>>): (r: Outcome)
    ensures r == Prompt <==> Text.AllSpace(input)
    ensures r == LoadError <==> !Text.AllSpace(input) && data.None?
    ensures r.Found? ==> exists i :: 0 <= i < |data.value| && data.value[i] == r.info
    ensures r.Found? ==> Text.Lower(r.info.name) == Text.Lower(Text.Trim(input))
    ensures r == NotFound <==>
      (&& !Text.AllSpace(input) && data.Some?
       && forall j :: 0 <= j < |data.value| ==> Text.Lower(data.value[j].name) != Text.Lower(Text.Trim(input)))
  {
    var q := Text.Lower(Text.Trim(input));
    Text.TrimEmpty(input);
    if q == [] then Prompt
    else match data
      case None => LoadError
      case Some(cs) =>
        match FindCondition(cs, q)
        case None => NotFound
        case Some(i) => Found(cs[i])
  }

  /** The lookup does not depend on the letter case of the query. */
  lemma SearchIgnoresCase(input: string, data: Option<seq<ConditionInfo>>)
    ensures Search(Text.Lower(input), data) == Search(input, data)
  {
    Text.TrimLower(input);
    Text.LowerIdempotent(Text.Trim(input));
  }

  /** The first matching entry wins when several names match. */
  lemma SearchFirstMatch(input: string, cs: seq<ConditionInfo>, i: nat)
    requires !Text.AllSpace(input) && i < |cs|
    requires Text.Lower(cs[i].name) == Text.Lower(Text.Trim(input))
    requires forall j :: 0 <= j < i ==> Text.Lower(cs[j].name) != Text.Lower(Text.Trim(input))
    ensures Search(input, Some(cs)) == Found(cs[i])
  {
    Text.TrimEmpty(input);
    var q := Text.Lower(Text.Trim(input));
    var k := FindCondition(cs, q);
    assert k.Some?;
    assert k.value == i;
  }
}
