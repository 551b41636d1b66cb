/** `CSVArray`: a raw string holding a comma-separated list. Deserialising
    splits it on `,`, strips whitespace from each piece, drops the empty
    pieces and hands every remaining piece to the inner field's coercion
    `inner`; serialising joins the inner serialisations with `,`. */
module CsvArray {
  import opened Wrappers

  /** The raw value handed to a field: `colander.null`, a string, or
      any other object. */
  datatype Cstruct = Null | Text(s: string) | NonText

  /** `Invalid` raised by the adapter itself, or by the inner field. */
  datatype CsvError<E> = NotAString | Item(error: E)

  /** The characters Python 2's `str.strip()` removes. */
  predicate IsSpace(c: char) {
    c == ' ' || c == '\t' || c == '\n' || c == '\r' || c == '\U{000B}' || c == '\U{000C}'
  }

  predicate AllSpace(s: string) {
    forall i :: 0 <= i < |s| ==> IsSpace(s[i])
  }

  /** Number of occurrences of `c` in `s`. */
  function Count(s: string, c: char): nat {
    if s == [] then 0 else (if s[0] == c then 1 else 0) + Count(s[1..], c)
  }

  // ---------------------------------------------------------------------------
  // str.split(sep) and its inverse str.join

  /** `s.split(sep)`: the maximal `sep`-free pieces, always at least one. */
  function Split(s: string, sep: char): (r: seq<string>)
    ensures |r| >= 1
    ensures forall i :: 0 <= i < |r| ==> sep !in r[i]
  {
    if s == [] then [[]]
    else
      var rest := Split(s[1..], sep);
      if s[0] == sep then [[]] + rest
      else [[s[0]] + rest[0]] + rest[1..]
  }

  /** `sep.join(parts)`. */
  function Join(parts: seq<string>, sep: char): string
    requires |parts| >= 1
  {
    if |parts| == 1 then parts[0] else parts[0] + [sep] + Join(parts[1..], sep)
  }

  /** Joining the pieces back gives the original string. */
  lemma {:induction false} JoinSplit(s: string, sep: char)
    ensures Join(Split(s, sep), sep) == s
  {
    if s != [] {
      var rest := Split(s[1..], sep);
      JoinSplit(s[1..], sep);
      if s[0] == sep {
        assert ([[]] + rest)[1..] == rest;
      } else if |rest| > 1 {
        assert Join(rest, sep) == rest[0] + [sep] + Join(rest[1..], sep);
        assert ([[s[0]] + rest[0]] + rest[1..])[1..] == rest[1..];
      }
    }
  }

  /** There is one piece more than there are separators. */
  lemma {:induction false} SplitLength(s: string, sep: char)
    ensures |Split(s, sep)| == Count(s, sep) + 1
  {
    if s != [] {
      SplitLength(s[1..], sep);
    }
  }

  lemma {:induction false} SplitNoSeparator(p: string, sep: char)
    requires sep !in p
    ensures Split(p, sep) == [p]
  {
    if p != [] {
      SplitNoSeparator(p[1..], sep);
      assert [p[0]] + p[1..] == p;
    }
  }

  lemma {:induction false} SplitAfterPiece(p: string, t: string, sep: char)
    requires sep !in p
    ensures Split(p + [sep] + t, sep) == [p] + Split(t, sep)
  {
    var s := p + [sep] + t;
    if p == [] {
      assert s[1..] == t;
    } else {
      assert s[1..] == p[1..] + [sep] + t;
      SplitAfterPiece(p[1..], t, sep);
      assert [p[0]] + p[1..] == p;
    }
  }

  /** Splitting a join of separator-free pieces gives the pieces back. */
  lemma {:induction false} SplitJoin(parts: seq<string>, sep: char)
    requires |parts| >= 1
    requires forall i :: 0 <= i < |parts| ==> sep !in parts[i]
    ensures Split(Join(parts, sep), sep) == parts
  {
    if |parts| == 1 {
      SplitNoSeparator(parts[0], sep);
    } else {
      SplitJoin(parts[1..], sep);
      SplitAfterPiece(parts[0], Join(parts[1..], sep), sep);
    }
  }

  // ---------------------------------------------------------------------------
  // str.strip()

  /** The number of whitespace characters `s` starts with. */
  function LeadingSpaces(s: string): (n: nat)
    ensures n <= |s|
    ensures forall k :: 0 <= k < n ==> IsSpace(s[k])
    ensures n < |s| ==> !IsSpace(s[n])
  {
    if s != [] && IsSpace(s[0]) then
      var m := LeadingSpaces(s[1..]);
      assert forall k :: 1 <= k < m + 1 ==> s[k] == s[1..][k - 1];
      m + 1
    else 0
  }

  /** The number of whitespace characters `s` ends with. */
  function TrailingSpaces(s: string): (n: nat)
    ensures n <= |s|
    ensures forall k :: |s| - n <= k < |s| ==> IsSpace(s[k])
    ensures n < |s| ==> !IsSpace(s[|s| - n - 1])
  {
    if s != [] && IsSpace(s[|s| - 1]) then TrailingSpaces(s[..|s| - 1]) + 1 else 0
  }

  /** `s.strip()`. */
  function Strip(s: string): string {
    var i := LeadingSpaces(s);
    s[i..|s| - TrailingSpaces(s[i..])]
  }

  /** `strip()` keeps the slice of `s` between its leading and its trailing
      whitespace: everything removed is whitespace, and what is kept
      neither starts nor ends with whitespace. */
  lemma StripShape(s: string)
    ensures var i, r := LeadingSpaces(s), Strip(s);
      i + |r| <= |s| && r == s[i..i + |r|] &&
      (forall k :: 0 <= k < i ==> IsSpace(s[k])) &&
      (forall k :: i + |r| <= k < |s| ==> IsSpace(s[k])) &&
      (r != [] ==> !IsSpace(r[0]) && !IsSpace(r[|r| - 1]))
  {
    var i := LeadingSpaces(s);
    var x := s[i..];
    var t := TrailingSpaces(x);
    assert forall k :: i + |x| - t <= k < |s| ==> s[k] == x[k - i];
    if t < |x| {
      assert Strip(s)[|Strip(s)| - 1] == x[|x| - t - 1];
    }
  }

  /** A string strips to nothing exactly when it is all whitespace. */
  lemma StripEmpty(s: string)
    ensures Strip(s) == [] <==> AllSpace(s)
  {
    var i := LeadingSpaces(s);
    if i < |s| {
      var x := s[i..];
      assert !IsSpace(x[0]);
      assert TrailingSpaces(x) < |x|;
    }
  }

  /** Stripping adds no character. */
  lemma StripAvoids(s: string, c: char)
    requires c !in s
    ensures c !in Strip(s)
  {
    StripShape(s);
  }

  /** A string without surrounding whitespace is left as it is. */
  lemma StripStripped(s: string)
    requires s != [] ==> !IsSpace(s[0]) && !IsSpace(s[|s| - 1])
    ensures Strip(s) == s
  {
    assert s[0..] == s;
  }

  // ---------------------------------------------------------------------------
  // the segments handed to the inner field

  /** `[x.strip() for x in pieces if x.strip()]`, in order. */
  function Keep(pieces: seq<string>): (r: seq<string>)
    ensures |r| <= |pieces|
  {
    if pieces == [] then []
    else (if Strip(pieces[0]) == [] then [] else [Strip(pieces[0])]) + Keep(pieces[1..])
  }

  /** The pieces of `s` that reach the inner field. */
  function Segments(s: string): seq<string> {
    Keep(Split(s, ','))
  }

  /** What is kept is non-empty and trimmed. */
  lemma {:induction false} KeepShape(pieces: seq<string>)
    ensures forall i :: 0 <= i < |Keep(pieces)| ==>
      (var x := Keep(pieces)[i]; x != [] && !IsSpace(x[0]) && !IsSpace(x[|x| - 1]))
  {
    if pieces != [] {
      StripShape(pieces[0]);
      KeepShape(pieces[1..]);
    }
  }

  lemma {:induction false} KeepAllSpace(pieces: seq<string>)
    requires forall j :: 0 <= j < |pieces| ==> AllSpace(pieces[j])
    ensures Keep(pieces) == []
  {
    if pieces != [] {
      StripEmpty(pieces[0]);
      KeepAllSpace(pieces[1..]);
    }
  }

  lemma {:induction false} KeepStripped(pieces: seq<string>)
    requires forall j :: 0 <= j < |pieces| ==> pieces[j] != [] && Strip(pieces[j]) == pieces[j]
    ensures Keep(pieces) == pieces
  {
    if pieces != [] {
      KeepStripped(pieces[1..]);
    }
  }

  lemma {:induction false} KeepAvoids(pieces: seq<string>, c: char)
    requires forall j :: 0 <= j < |pieces| ==> c !in pieces[j]
    ensures forall i :: 0 <= i < |Keep(pieces)| ==> c !in Keep(pieces)[i]
  {
    if pieces != [] {
      StripAvoids(pieces[0], c);
      KeepAvoids(pieces[1..], c);
    }
  }

  /** Every segment is non-empty, holds no comma and has no surrounding
      whitespace; there are at most as many segments as commas plus one. */
  lemma {:induction false} SegmentsShape(s: string)
    ensures |Segments(s)| <= Count(s, ',') + 1
    ensures forall i :: 0 <= i < |Segments(s)| ==>
      (var x := Segments(s)[i];
       x != [] && ',' !in x && !IsSpace(x[0]) && !IsSpace(x[|x| - 1]))
  {
    SplitLength(s, ',');
    KeepShape(Split(s, ','));
    KeepAvoids(Split(s, ','), ',');
  }

  lemma {:induction false} SplitAllSpace(s: string, sep: char)
    requires forall i :: 0 <= i < |s| ==> s[i] == sep || IsSpace(s[i])
    ensures forall j :: 0 <= j < |Split(s, sep)| ==> AllSpace(Split(s, sep)[j])
  {
    if s != [] {
      SplitAllSpace(s[1..], sep);
      var rest := Split(s[1..], sep);
      if s[0] != sep {
        assert AllSpace([s[0]] + rest[0]);
      }
    }
  }

  /** A string of nothing but commas and whitespace (`""`, `" , ,"`) has no
      segments. */
  lemma NoSegments(s: string)
    requires forall i :: 0 <= i < |s| ==> s[i] == ',' || IsSpace(s[i])
    ensures Segments(s) == []
  {
    SplitAllSpace(s, ',');
    KeepAllSpace(Split(s, ','));
  }

  // ---------------------------------------------------------------------------
  // deserialize and serialize

  /** The inner coercion applied to each segment in turn; the first
      `Invalid` propagates out of the list comprehension. */
  function DeserializeAll<T, E>(xs: seq<string>, inner: string -> Result<T, E>): (r: Result<seq<T>, E>)
    ensures r.Success? ==> |r.value| == |xs| && forall i :: 0 <= i < |xs| ==> inner(xs[i]) == Success(r.value[i])
    ensures r.Failure? ==> exists i :: (0 <= i < |xs| && inner(xs[i]) == Failure(r.error) &&
      forall j :: 0 <= j < i ==> inner(xs[j]).Success?)
  {
    if xs == [] then Success([])
    else
      match inner(xs[0])
      case Failure(e) => Failure(e)
      case Success(v) =>
        match DeserializeAll(xs[1..], inner)
        case Failure(e) =>
          assert exists i :: (0 <= i < |xs| && inner(xs[i]) == Failure(e) &&
            forall j :: 0 <= j < i ==> inner(xs[j]).Success?) by {
            var i :| 0 <= i < |xs[1..]| && inner(xs[1..][i]) == Failure(e) &&
              forall j :: 0 <= j < i ==> inner(xs[1..][j]).Success?;
            assert forall j :: 0 < j < i + 1 ==> inner(xs[j]) == inner(xs[1..][j - 1]);
          }
          Failure(e)
        case Success(vs) => Success([v] + vs)
  }

  /** `CSVArray.deserialize(node, cstruct)`; `Success(None)` is
      `colander.null`. */
  function Deserialize<T, E>(c: Cstruct, inner: string -> Result<T, E>): (r: Result<Option<seq<T>>, CsvError<E>>)
    ensures c.Null? ==> r == Success(None)
    ensures c.NonText? ==> r == Failure(NotAString)
    ensures c.Text? ==> (r.Failure? <==> exists i :: 0 <= i < |Segments(c.s)| && inner(Segments(c.s)[i]).Failure?)
    ensures c.Text? && r.Success? ==>
      (r.value.Some? && |r.value.value| == |Segments(c.s)| &&
       forall i :: 0 <= i < |Segments(c.s)| ==> inner(Segments(c.s)[i]) == Success(r.value.value[i]))
    ensures c.Text? && r.Failure? ==> r.error.Item?
  {
    match c
    case Null => Success(None)
    case NonText => Failure(NotAString)
    case Text(s) =>
      match DeserializeAll(Segments(s), inner)
      case Success(items) => Success(Some(items))
      case Failure(e) => Failure(Item(e))
  }

  /** `CSVArray.serialize(node, appstruct)`; `None` is `colander.null`.
      A list becomes the comma-join of its elements' serialisations, which
      `split(",")` takes apart again when none of them holds a comma. */
  function Serialize<T>(appstruct: Option<seq<T>>, outer: T -> string): (r: Option<string>)
    ensures r.None? <==> appstruct.None?
    ensures appstruct == Some([]) ==> r == Some("")
    ensures (appstruct.Some? && appstruct.value != [] &&
             (forall i :: 0 <= i < |appstruct.value| ==> ',' !in outer(appstruct.value[i]))) ==>
      Split(r.value, ',') == Map(appstruct.value, outer)
  {
    match appstruct
    case None => None
    case Some(xs) =>
      if xs == [] then Some("")
      else
        var text := Join(Map(xs, outer), ',');
        assert (forall i :: 0 <= i < |xs| ==> ',' !in outer(xs[i])) ==> Split(text, ',') == Map(xs, outer) by {
          if forall i :: 0 <= i < |xs| ==> ',' !in outer(xs[i]) {
            SplitJoin(Map(xs, outer), ',');
          }
        }
        Some(text)
  }

  function Map<T>(xs: seq<T>, f: T -> string): (r: seq<string>)
    ensures |r| == |xs| && forall i :: 0 <= i < |xs| ==> r[i] == f(xs[i])
  {
    if xs == [] then [] else [f(xs[0])] + Map(xs[1..], f)
  }

  /** A value the inner field writes without commas or surrounding
      whitespace, and reads back as itself. */
  ghost predicate Representable<T, E>(x: T, outer: T -> string, inner: string -> Result<T, E>) {
    var w := outer(x);
    w != [] && ',' !in w && !IsSpace(w[0]) && !IsSpace(w[|w| - 1]) && inner(w) == Success(x)
  }

  /** Deserialising what `serialize` wrote gives the list back, provided
      the inner field round-trips each element. */
  lemma RoundTrip<T, E>(xs: seq<T>, outer: T -> string, inner: string -> Result<T, E>)
    requires forall i :: 0 <= i < |xs| ==> Representable(xs[i], outer, inner)
    ensures Deserialize(Text(Serialize(Some(xs), outer).value), inner) == Success(Some(xs))
  {
    var s := Serialize(Some(xs), outer).value;
    if xs == [] {
      NoSegments(s);
    } else {
      var ws := Map(xs, outer);
      SplitJoin(ws, ',');
      forall j | 0 <= j < |ws| ensures ws[j] != [] && Strip(ws[j]) == ws[j] {
        StripStripped(ws[j]);
      }
      KeepStripped(ws);
      assert Segments(s) == ws;
      var r := Deserialize(Text(s), inner);
      assert r.Success?;
      assert r.value.value == xs;
    }
  }

  /** `"1, 2,3"` reaches the inner field as `"1"`, `"2"`, `"3"`. */
  lemma ExampleList()
    ensures Segments("1, 2,3") == ["1", "2", "3"]
  {
    var pieces := ["1", " 2", "3"];
    SplitJoin(pieces, ',');
    assert Join(pieces, ',') == "1, 2,3" by {
      assert Join(pieces[2..], ',') == "3";
      assert Join(pieces[1..], ',') == " 2,3";
    }
    StripStripped("1");
    StripStripped("3");
    assert LeadingSpaces(" 2") == 1;
    assert Strip(" 2") == "2";
    assert Keep(pieces[2..]) == ["3"];
    assert Keep(pieces[1..]) == ["2", "3"];
  }

  /** `""` and `" , ,"` give the empty list. */
  lemma ExampleEmpty()
    ensures Segments("") == [] && Segments(" , ,") == []
  {
    NoSegments("");
    NoSegments(" , ,");
  }
}
