/**
 * The few `java.lang.String` operations the haiku extraction relies on, with Java's
 * exact edge cases: `indexOf`, `trim` (which strips every char up to U+0020, not
 * just whitespace) and `split` with a one-character literal delimiter (which drops
 * trailing empty strings, but returns the input itself when the delimiter does
 * not occur). `Join` is the inverse of splitting, used to specify both.
 */
module JavaString {

  /** A char that `String.trim` removes from either end. */
  predicate IsTrimmable(c: char) {
    c <= ' '
  }

  /** `s.indexOf(c, from)`, except that "not found" is `|s|` rather than -1. */
  function IndexOf(s: string, c: char, from: nat): (r: nat)
    requires from <= |s|
    ensures from <= r <= |s|
    ensures forall t :: from <= t < r ==> s[t] != c
    ensures r < |s| ==> s[r] == c
    decreases |s| - from
  {
    if from == |s| || s[from] == c then from else IndexOf(s, c, from + 1)
  }

  /** Leading trimmable chars removed. */
  function TrimLeft(s: string): (r: string)
    ensures |r| <= |s| && r == s[|s| - |r|..]
    ensures forall t :: 0 <= t < |s| - |r| ==> IsTrimmable(s[t])
    ensures r == [] || !IsTrimmable(r[0])
  {
    if s != [] && IsTrimmable(s[0]) then TrimLeft(s[1..]) else s
  }

  /** Trailing trimmable chars removed. */
  function TrimRight(s: string): (r: string)
    ensures |r| <= |s| && r == s[..|r|]
    ensures forall t :: |r| <= t < |s| ==> IsTrimmable(s[t])
    ensures r == [] || !IsTrimmable(r[|r| - 1])
  {
    if s != [] && IsTrimmable(s[|s| - 1]) then TrimRight(s[..|s| - 1]) else s
  }

  /** `s.trim()`: `s` without the trimmable chars at either end (see `TrimIsInfix`). */
  function Trim(s: string): (r: string)
    ensures |r| <= |s|
    ensures IsTrimmed(r)
  {
    TrimRight(TrimLeft(s))
  }

  /** A string that `trim` leaves as it is. */
  predicate IsTrimmed(s: string) {
    s == [] || (!IsTrimmable(s[0]) && !IsTrimmable(s[|s| - 1]))
  }

  /**
   * `trim` keeps a contiguous piece of `s` and removes only trimmable chars
   * around it; it gives `""` exactly when every char is trimmable.
   */
  lemma TrimIsInfix(s: string)
    ensures exists a: nat :: a <= |s| && Trim(s) <= s[a..]
                           && (forall t :: 0 <= t < a ==> IsTrimmable(s[t]))
                           && (forall t :: a + |Trim(s)| <= t < |s| ==> IsTrimmable(s[t]))
    ensures Trim(s) == [] <==> forall t :: 0 <= t < |s| ==> IsTrimmable(s[t])
  {
    var l := TrimLeft(s);
    var r := TrimRight(l);
    var a := |s| - |l|;
    assert r <= s[a..];
  }

  lemma TrimOfTrimmed(s: string)
    requires IsTrimmed(s)
    ensures Trim(s) == s
  {
  }

  lemma TrimIdempotent(s: string)
    ensures Trim(Trim(s)) == Trim(s)
  {
    TrimOfTrimmed(Trim(s));
  }

  /** The parts joined with one `d` between neighbours (`String.join`). */
  function Join(parts: seq<string>, d: char): string
  {
    if |parts| == 0 then ""
    else if |parts| == 1 then parts[0]
    else parts[0] + [d] + Join(parts[1..], d)
  }

  /** Every piece of `s` between occurrences of `d`, empty ones included. */
  function SplitAll(s: string, d: char): (parts: seq<string>)
    ensures |parts| >= 1
    ensures forall t :: 0 <= t < |parts| ==> d !in parts[t]
    ensures Join(parts, d) == s
    decreases |s|
  {
    var p := IndexOf(s, d, 0);
    if p == |s| then
      assert d !in s;
      [s]
    else
      var rest := SplitAll(s[p + 1..], d);
      assert s == s[..p] + [d] + s[p + 1..];
      [s[..p]] + rest
  }

  /** The longest prefix of `parts` that does not end in an empty string. */
  function DropTrailingEmpty(parts: seq<string>): (r: seq<string>)
    ensures |r| <= |parts| && r == parts[..|r|]
    ensures forall t :: |r| <= t < |parts| ==> parts[t] == ""
    ensures r == [] || r[|r| - 1] != ""
  {
    if parts != [] && parts[|parts| - 1] == "" then DropTrailingEmpty(parts[..|parts| - 1]) else parts
  }

  /**
   * `s.split(d)` for a single non-special char `d`: when `d` does not occur the
   * result is `[s]` (so `""` splits into `[""]`); otherwise every piece, with
   * the trailing empty ones dropped.
   */
  function JavaSplit(s: string, d: char): (r: seq<string>)
    ensures forall t :: 0 <= t < |r| ==> d !in r[t]
    ensures s != "" ==> r == [] || r[|r| - 1] != ""
    ensures d !in s ==> r == [s]
    ensures d in s ==> |r| <= |SplitAll(s, d)| && r == SplitAll(s, d)[..|r|]
    ensures d in s ==> forall t :: |r| <= t < |SplitAll(s, d)| ==> SplitAll(s, d)[t] == ""
  {
    if d !in s then [s] else DropTrailingEmpty(SplitAll(s, d))
  }

  /** Splitting undoes joining, as long as no part holds the delimiter. */
  lemma {:induction false} SplitAllJoin(parts: seq<string>, d: char)
    requires |parts| >= 1
    requires forall t :: 0 <= t < |parts| ==> d !in parts[t]
    ensures SplitAll(Join(parts, d), d) == parts
    decreases |parts|
  {
    if |parts| == 1 {
      assert d !in parts[0];
    } else {
      var s := Join(parts, d);
      var p0 := parts[0];
      var tail := Join(parts[1..], d);
      assert s == p0 + [d] + tail;
      assert s[..|p0|] == p0 && s[|p0|] == d && s[|p0| + 1..] == tail;
      assert IndexOf(s, d, 0) == |p0|;
      SplitAllJoin(parts[1..], d);
    }
  }

  /** `Join(ps, d).split(d)` gives `ps` back when the last part is not empty. */
  lemma JavaSplitJoin(parts: seq<string>, d: char)
    requires |parts| >= 1 && parts[|parts| - 1] != ""
    requires forall t :: 0 <= t < |parts| ==> d !in parts[t]
    ensures JavaSplit(Join(parts, d), d) == parts
  {
    SplitAllJoin(parts, d);
    if d !in Join(parts, d) {
      assert SplitAll(Join(parts, d), d) == [Join(parts, d)];
    }
  }

  /** One trailing delimiter is dropped by `split`: `"a/b/c/"` splits like `"a/b/c"`. */
  lemma JavaSplitJoinTrailing(parts: seq<string>, d: char)
    requires |parts| >= 1 && parts[|parts| - 1] != ""
    requires forall t :: 0 <= t < |parts| ==> d !in parts[t]
    ensures JavaSplit(Join(parts, d) + [d], d) == parts
  {
    var s := Join(parts, d);
    var ext := parts + [""];
    JoinSnoc(parts, "", d);
    assert Join(ext, d) == s + [d];
    SplitAllJoin(ext, d);
    assert (s + [d])[|s|] == d;
    assert ext[..|ext| - 1] == parts;
    assert DropTrailingEmpty(ext) == DropTrailingEmpty(parts) == parts;
  }

  /** Appending a part adds one delimiter and the part at the end. */
  lemma {:induction false} JoinSnoc(parts: seq<string>, x: string, d: char)
    requires |parts| >= 1
    ensures Join(parts + [x], d) == Join(parts, d) + [d] + x
    decreases |parts|
  {
    if |parts| == 1 {
      assert parts + [x] == [parts[0], x];
    } else {
      assert (parts + [x])[1..] == parts[1..] + [x];
      JoinSnoc(parts[1..], x, d);
    }
  }

  /** A char missing from the joined text is missing from every part. */
  lemma {:induction false} JoinLacks(parts: seq<string>, d: char, c: char)
    requires c !in Join(parts, d)
    ensures forall t :: 0 <= t < |parts| ==> c !in parts[t]
    decreases |parts|
  {
    if |parts| > 1 {
      assert Join(parts, d) == parts[0] + [d] + Join(parts[1..], d);
      JoinLacks(parts[1..], d, c);
      assert forall t :: 1 <= t < |parts| ==> parts[t] == parts[1..][t - 1];
    }
  }

  /** Trimming adds no char. */
  lemma TrimLacks(s: string, c: char)
    requires c !in s
    ensures c !in Trim(s)
  {
    var l := TrimLeft(s);
    var r := TrimRight(l);
    assert Trim(s) == r;
    assert forall t :: 0 <= t < |r| ==> r[t] == l[t] == s[|s| - |l| + t];
  }

  /** A char missing from `s` is missing from every piece `split` returns. */
  lemma JavaSplitLacks(s: string, d: char, c: char)
    requires c !in s
    ensures forall t :: 0 <= t < |JavaSplit(s, d)| ==> c !in JavaSplit(s, d)[t]
  {
    if d in s {
      var all := SplitAll(s, d);
      JoinLacks(all, d, c);
      assert JavaSplit(s, d) == all[..|JavaSplit(s, d)|];
    }
  }
}
