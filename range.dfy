/** The pagination range field: `maybe_int` and `RangeType.deserialize`.
    The field is declared `toplevel`, so it receives the whole remaining
    query mapping and reads up to four keys of it: `_page`, `_offset`,
    `_skip` and `_limit`. Python's `int(str)` is the parameter `parse`,
    which answers `None` where `int` raises `ValueError`. */
module RangeType {
  import opened Wrappers

  /** The two range shapes the field produces (the source's
      `PageBasedRangeInfo(page)` and `RangeInfo(offset, limit)`). */
  datatype RangeInfo = PageBased(page: int) | OffsetBased(offset: int, limit: Option<int>)

  /** What every range produced by the field satisfies. */
  predicate WellFormed(r: RangeInfo) {
    match r
    case PageBased(page) => page >= 1
    case OffsetBased(offset, limit) => offset >= 0 && (limit.Some? ==> limit.value >= 0)
  }

  /** `data.get(key)`: `None` when the key is absent. */
  function Get(data: map<string, string>, key: string): (r: Option<string>)
    ensures r.Some? <==> key in data
    ensures r.Some? ==> r.value == data[key]
  {
    if key in data then Some(data[key]) else None
  }

  /** `maybe_int(value, default=0)`: `None` stays `None`; a string becomes
      its integer, or `default` when it is not one (the `ValueError` is
      swallowed, so a present value never yields `None`). */
  function MaybeInt(value: Option<string>, parse: string -> Option<int>, default: int := 0): (r: Option<int>)
    ensures r.None? <==> value.None?
    ensures value.Some? ==> r.value == (if parse(value.value).Some? then parse(value.value).value else default)
  {
    match value
    case None => None
    case Some(s) =>
      match parse(s)
      case Some(n) => Some(n)
      case None => Some(default)
  }

  function Max(a: int, b: int): int { if a < b then b else a }

  /** `RangeType.deserialize(node, data)`. */
  function Deserialize(data: map<string, string>, parse: string -> Option<int>): (r: RangeInfo)
    ensures WellFormed(r)
    ensures r.PageBased? <==> "_page" in data
    ensures r.OffsetBased? ==>
      (r.limit.None? <==> ("_limit" !in data || (parse(data["_limit"]).Some? && parse(data["_limit"]).value < 0)))
  {
    var page := MaybeInt(Get(data, "_page"), parse);
    if page.None? then
      var offset0 := MaybeInt(Get(data, "_offset"), parse);
      var offset1 := if offset0.None? then MaybeInt(Get(data, "_skip"), parse) else offset0;
      var offset := if offset1.None? || offset1.value < 0 then 0 else offset1.value;
      var limit0 := MaybeInt(Get(data, "_limit"), parse);
      var limit := if limit0.Some? && limit0.value < 0 then None else limit0;
      OffsetBased(offset, limit)
    else
      PageBased(Max(1, page.value))
  }

  /** The page number a present `_page` string turns into. */
  function PageOf(s: string, parse: string -> Option<int>): int {
    Max(1, if parse(s).Some? then parse(s).value else 0)
  }

  /** The offset a present `_offset` or `_skip` string turns into. */
  function OffsetOf(s: string, parse: string -> Option<int>): int {
    if parse(s).Some? && parse(s).value >= 0 then parse(s).value else 0
  }

  /** A present `_page` decides the result alone: the page is the parsed
      number raised to at least 1, and every other key is ignored. */
  lemma PageTakesPrecedence(data: map<string, string>, parse: string -> Option<int>)
    requires "_page" in data
    ensures Deserialize(data, parse) == PageBased(PageOf(data["_page"], parse))
    ensures Deserialize(data, parse) == Deserialize(map["_page" := data["_page"]], parse)
  {
  }

  /** Without `_page` the offset comes from `_offset`; `_skip` is read only
      when `_offset` is absent, and the offset is 0 when both are. */
  lemma OffsetFallback(data: map<string, string>, parse: string -> Option<int>)
    requires "_page" !in data
    ensures Deserialize(data, parse).offset ==
      if "_offset" in data then OffsetOf(data["_offset"], parse)
      else if "_skip" in data then OffsetOf(data["_skip"], parse)
      else 0
    ensures "_offset" in data ==> Deserialize(data, parse) == Deserialize(data - {"_skip"}, parse)
  {
    if "_offset" in data {
      assert Get(data - {"_skip"}, "_offset") == Get(data, "_offset");
      assert Get(data - {"_skip"}, "_limit") == Get(data, "_limit");
    }
  }

  /** The limit: absent or negative gives no limit, anything else the
      parsed number, with a malformed string counting as 0. */
  lemma LimitRule(data: map<string, string>, parse: string -> Option<int>)
    requires "_page" !in data
    ensures Deserialize(data, parse).limit ==
      if "_limit" !in data then None
      else if parse(data["_limit"]).None? then Some(0)
      else if parse(data["_limit"]).value < 0 then None
      else parse(data["_limit"])
  {
  }

  /** Malformed numbers never raise: a malformed `_page` gives page 1, a
      malformed `_offset` gives offset 0 without consulting `_skip`, and a
      malformed `_limit` gives limit 0 (not "no limit"). */
  lemma MalformedFallsBack(data: map<string, string>, parse: string -> Option<int>)
    ensures "_page" in data && parse(data["_page"]).None? ==> Deserialize(data, parse) == PageBased(1)
    ensures "_page" !in data && "_offset" in data && parse(data["_offset"]).None? ==>
      Deserialize(data, parse).offset == 0
    ensures "_page" !in data && "_limit" in data && parse(data["_limit"]).None? ==>
      Deserialize(data, parse).limit == Some(0)
  {
  }
}
