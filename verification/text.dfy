/** The .NET string operations the cache relies on: `char.IsWhiteSpace`,
    `string.IsNullOrWhiteSpace`, `Trim`, `Split` with `RemoveEmptyEntries`,
    `string.Join`, LINQ `Distinct`/`Union`, and the case-insensitive
    comparison used on channel names. Strings are non-null here. */
module Text {

  /** `char.IsWhiteSpace`: the Unicode White_Space characters. */
  predicate IsWhiteSpace(c: char) {
    || ('\t' <= c <= '\r')
    || c == ' '
    || c == '\U{85}'
    || c == '\U{A0}'
    || c == '\U{1680}'
    || ('\U{2000}' <= c <= '\U{200A}')
    || c == '\U{2028}'
    || c == '\U{2029}'
    || c == '\U{202F}'
    || c == '\U{205F}'
    || c == '\U{3000}'
  }

  /** `string.IsNullOrWhiteSpace` on a non-null string: empty or only white space. */
  predicate IsNullOrWhiteSpace(s: string) {
    forall i :: 0 <= i < |s| ==> IsWhiteSpace(s[i])
  }

  /** Neither end of `s` is white space. */
  predicate IsTrimmed(s: string) {
    |s| == 0 || (!IsWhiteSpace(s[0]) && !IsWhiteSpace(s[|s| - 1]))
  }

  /** `TrimStart()`: drops the leading white space. */
  function TrimStart(s: string): (r: string)
    ensures |r| <= |s| && r == s[|s| - |r|..]
    ensures forall i :: 0 <= i < |s| - |r| ==> IsWhiteSpace(s[i])
    ensures |r| == 0 || !IsWhiteSpace(r[0])
  {
    if |s| > 0 && IsWhiteSpace(s[0]) then TrimStart(s[1..]) else s
  }

  /** `TrimEnd()`: drops the trailing white space. */
  function TrimEnd(s: string): (r: string)
    ensures |r| <= |s| && r == s[..|r|]
    ensures forall i :: |r| <= i < |s| ==> IsWhiteSpace(s[i])
    ensures |r| == 0 || !IsWhiteSpace(r[|r| - 1])
    ensures |s| > 0 && !IsWhiteSpace(s[0]) ==> |r| > 0
  {
    if |s| > 0 && IsWhiteSpace(s[|s| - 1]) then TrimEnd(s[..|s| - 1]) else s
  }

  /** `Trim()`: the longest infix of `s` with no white space at either end. */
  function Trim(s: string): (r: string)
    ensures IsTrimmed(r)
    ensures |r| <= |s|
    ensures IsTrimmed(s) ==> r == s
    ensures r == "" <==> IsNullOrWhiteSpace(s)
  {
    TrimEnd(TrimStart(s))
  }

  /** `string.Join(sep, xs)`. */
  function Join(sep: string, xs: seq<string>): string
  {
    if |xs| == 0 then ""
    else if |xs| == 1 then xs[0]
    else xs[0] + sep + Join(sep, xs[1..])
  }

  /** The pieces of `cur + s` cut at each non-overlapping occurrence of the
      non-empty `sep`, scanning left to right (`String.Split` before empty
      entries are removed); `cur` is the piece being accumulated. */
  function Pieces(s: string, sep: string, cur: string): (r: seq<string>)
    requires |sep| > 0
    ensures |r| > 0
    ensures Join(sep, r) == cur + s
    decreases |s|
  {
    if |s| == 0 then [cur]
    else if sep <= s then
      var rest := Pieces(s[|sep|..], sep, "");
      assert s == sep + s[|sep|..];
      [cur] + rest
    else
      var r := Pieces(s[1..], sep, cur + [s[0]]);
      assert cur + [s[0]] + s[1..] == cur + s;
      r
  }

  /** `StringSplitOptions.RemoveEmptyEntries`: keeps the non-empty pieces in order. */
  function RemoveEmpty(xs: seq<string>): (r: seq<string>)
    ensures forall i :: 0 <= i < |r| ==> r[i] != ""
    ensures forall x :: x in r <==> x in xs && x != ""
    ensures (forall i :: 0 <= i < |xs| ==> xs[i] != "") ==> r == xs
  {
    if |xs| == 0 then []
    else if xs[0] == "" then RemoveEmpty(xs[1..])
    else [xs[0]] + RemoveEmpty(xs[1..])
  }

  /** `s.Split(new[] { sep }, StringSplitOptions.RemoveEmptyEntries)`. .NET
      skips an empty entry of the separator array, so an empty `sep` leaves
      `s` whole (and an empty `s` gives no pieces). */
  function Split(s: string, sep: string): seq<string>
  {
    RemoveEmpty(if |sep| > 0 then Pieces(s, sep, "") else [s])
  }

  predicate NoDuplicates<T(==)>(xs: seq<T>) {
    forall i, j :: 0 <= i < j < |xs| ==> xs[i] != xs[j]
  }

  /** LINQ `Distinct`: the first occurrence of each element, in order. */
  function Distinct<T(==)>(xs: seq<T>): (r: seq<T>)
    ensures NoDuplicates(r)
    ensures forall i :: 0 <= i < |r| ==> r[i] in xs
    ensures forall i :: 0 <= i < |xs| ==> xs[i] in r
    decreases |xs|
  {
    if |xs| == 0 then []
    else
      var d := Distinct(xs[..|xs| - 1]);
      assert xs == xs[..|xs| - 1] + [xs[|xs| - 1]];
      if xs[|xs| - 1] in d then d else d + [xs[|xs| - 1]]
  }

  /** LINQ `a.Union(b)`: the distinct elements of `a` followed by those of `b`. */
  function Union<T(==)>(a: seq<T>, b: seq<T>): seq<T>
  {
    Distinct(a + b)
  }

  /** ASCII case folding. */
  function ToLowerAscii(c: char): char {
    if 'A' <= c <= 'Z' then (c as int + 32) as char else c
  }

  /** `string.Compare(a, b, InvariantCultureIgnoreCase) == 0`, restricted to
      ASCII case folding. */
  predicate EqualsIgnoreCase(a: string, b: string) {
    |a| == |b| && forall i :: 0 <= i < |a| ==> ToLowerAscii(a[i]) == ToLowerAscii(b[i])
  }

  // ---- Distinct and Union ----

  lemma {:induction false} DistinctOfDistinct<T>(d: seq<T>)
    requires NoDuplicates(d)
    ensures Distinct(d) == d
    decreases |d|
  {
    if |d| > 0 {
      var init := d[..|d| - 1];
      DistinctOfDistinct(init);
      assert d[|d| - 1] !in init;
      assert init + [d[|d| - 1]] == d;
    }
  }

  /** Appending elements that already occur in a duplicate-free `d` changes nothing. */
  lemma {:induction false} DistinctAbsorbs<T>(d: seq<T>, ys: seq<T>)
    requires NoDuplicates(d)
    requires forall i :: 0 <= i < |ys| ==> ys[i] in d
    ensures Distinct(d + ys) == d
    decreases |ys|
  {
    if |ys| == 0 {
      assert d + ys == d;
      DistinctOfDistinct(d);
    } else {
      var init := ys[..|ys| - 1];
      DistinctAbsorbs(d, init);
      assert (d + ys)[..|d + ys| - 1] == d + init;
    }
  }

  /** The distinct elements of `a` keep their order at the front of those of `a + b`. */
  lemma {:induction false} DistinctPrefix<T>(a: seq<T>, b: seq<T>)
    ensures Distinct(a) <= Distinct(a + b)
    decreases |b|
  {
    if |b| == 0 {
      assert a + b == a;
    } else {
      var init := b[..|b| - 1];
      DistinctPrefix(a, init);
      assert (a + b)[..|a + b| - 1] == a + init;
    }
  }

  /** `Union(a, b)` holds each element of `a` or `b` once, and starts with
      the distinct elements of `a`. */
  lemma UnionCovers<T>(a: seq<T>, b: seq<T>)
    ensures NoDuplicates(Union(a, b))
    ensures forall x :: x in Union(a, b) <==> x in a || x in b
    ensures Distinct(a) <= Union(a, b)
  {
    DistinctPrefix(a, b);
    var u := Union(a, b);
    forall x | x in a || x in b
      ensures x in u
    {
      assert x in a + b;
    }
  }

  /** `x.Union(y).Union(y)` equals `x.Union(y)`. */
  lemma UnionIdempotent<T>(a: seq<T>, b: seq<T>)
    ensures Union(Union(a, b), b) == Union(a, b)
  {
    var u := Union(a, b);
    assert forall i :: 0 <= i < |b| ==> b[i] in u by {
      forall i | 0 <= i < |b|
        ensures b[i] in u
      {
        assert b[i] == (a + b)[|a| + i];
      }
    }
    DistinctAbsorbs(u, b);
  }

  // ---- Split and Join with a one-character separator ----

  lemma {:induction false} PiecesWithoutSeparator(t: string, c: char, cur: string)
    requires c !in t
    ensures Pieces(t, [c], cur) == [cur + t]
    decreases |t|
  {
    if |t| > 0 {
      assert t[0] in t;
      assert !([c] <= t);
      PiecesWithoutSeparator(t[1..], c, cur + [t[0]]);
      assert cur + [t[0]] + t[1..] == cur + t;
    } else {
      assert cur + t == cur;
    }
  }

  lemma {:induction false} PiecesCut(t: string, rest: string, c: char, cur: string)
    requires c !in t
    ensures Pieces(t + [c] + rest, [c], cur) == [cur + t] + Pieces(rest, [c], "")
    decreases |t|
  {
    var s := t + [c] + rest;
    if |t| == 0 {
      assert s == [c] + rest;
      assert [c] <= s;
      assert s[1..] == rest;
      assert cur + t == cur;
    } else {
      assert s[0] == t[0] && t[0] in t;
      assert !([c] <= s);
      assert s[1..] == t[1..] + [c] + rest;
      PiecesCut(t[1..], rest, c, cur + [t[0]]);
      assert cur + [t[0]] + t[1..] == cur + t;
    }
  }

  lemma {:induction false} PiecesOfJoin(ts: seq<string>, c: char)
    requires |ts| > 0
    requires forall i :: 0 <= i < |ts| ==> c !in ts[i]
    ensures Pieces(Join([c], ts), [c], "") == ts
    decreases |ts|
  {
    if |ts| == 1 {
      PiecesWithoutSeparator(ts[0], c, "");
      assert "" + ts[0] == ts[0];
    } else {
      PiecesCut(ts[0], Join([c], ts[1..]), c, "");
      PiecesOfJoin(ts[1..], c);
      assert "" + ts[0] == ts[0];
      assert [ts[0]] + ts[1..] == ts;
    }
  }

  /** Splitting the join of non-empty, separator-free tokens gives them back. */
  lemma SplitJoin(ts: seq<string>, c: char)
    requires forall i :: 0 <= i < |ts| ==> ts[i] != "" && c !in ts[i]
    ensures Split(Join([c], ts), [c]) == ts
  {
    if |ts| == 0 {
      assert Pieces("", [c], "") == [""];
    } else {
      PiecesOfJoin(ts, c);
    }
  }

  lemma {:induction false} PiecesAvoidSeparator(s: string, c: char, cur: string)
    requires c !in cur
    ensures forall i :: 0 <= i < |Pieces(s, [c], cur)| ==> c !in Pieces(s, [c], cur)[i]
    decreases |s|
  {
    if |s| > 0 {
      if [c] <= s {
        PiecesAvoidSeparator(s[1..], c, "");
      } else {
        PiecesAvoidSeparator(s[1..], c, cur + [s[0]]);
      }
    }
  }

  /** Tokens split on a one-character separator never contain it. */
  lemma SplitAvoidsSeparator(s: string, c: char)
    ensures forall i :: 0 <= i < |Split(s, [c])| ==> Split(s, [c])[i] != "" && c !in Split(s, [c])[i]
  {
    PiecesAvoidSeparator(s, c, "");
    var ps := Pieces(s, [c], "");
    forall i | 0 <= i < |Split(s, [c])|
      ensures Split(s, [c])[i] != "" && c !in Split(s, [c])[i]
    {
      var t := Split(s, [c])[i];
      assert t in RemoveEmpty(ps);
      assert t in ps;
    }
  }

  /** The join of non-empty trimmed tokens is itself trimmed. */
  lemma {:induction false} JoinTrimmed(sep: string, ts: seq<string>)
    requires forall i :: 0 <= i < |ts| ==> ts[i] != "" && IsTrimmed(ts[i])
    ensures IsTrimmed(Join(sep, ts))
    ensures |ts| > 0 ==> |Join(sep, ts)| > 0 && Join(sep, ts)[0] == ts[0][0]
    decreases |ts|
  {
    if |ts| > 1 {
      JoinTrimmed(sep, ts[1..]);
    }
  }
}
