/**
 * The two pieces of Go's `strings` package that the middleware relies on:
 * `strings.TrimSpace` and `strings.Split(s, ",")`, written out concretely
 * over `seq<char>`.
 */
module Strings {

  /** Go's `unicode.IsSpace`: the Unicode White_Space property. */
  predicate IsSpace(c: char) {
    ('\U{0009}' <= c <= '\U{000D}') || c == ' ' || c == '\U{0085}' || c == '\U{00A0}'
    || c == '\U{1680}' || ('\U{2000}' <= c <= '\U{200A}') || c == '\U{2028}' || c == '\U{2029}'
    || c == '\U{202F}' || c == '\U{205F}' || c == '\U{3000}'
  }

  /** Drops the leading white space. */
  function TrimLeft(s: string): string
    decreases |s|
  {
    if s != [] && IsSpace(s[0]) then TrimLeft(s[1..]) else s
  }

  /** Drops the trailing white space. */
  function TrimRight(s: string): string
    decreases |s|
  {
    if s != [] && IsSpace(s[|s| - 1]) then TrimRight(s[..|s| - 1]) else s
  }

  /** `TrimLeft` keeps a suffix that does not start with white space and removes only white space. */
  lemma {:induction false} TrimLeftRemovesLeadingSpace(s: string)
    ensures var r := TrimLeft(s);
            && |r| <= |s| && r == s[|s| - |r|..]
            && (r == [] || !IsSpace(r[0]))
            && (forall k :: 0 <= k < |s| - |r| ==> IsSpace(s[k]))
    decreases |s|
  {
    if s != [] && IsSpace(s[0]) {
      TrimLeftRemovesLeadingSpace(s[1..]);
    }
  }

  /** `TrimRight` keeps a prefix that does not end with white space and removes only white space. */
  lemma {:induction false} TrimRightRemovesTrailingSpace(s: string)
    ensures var r := TrimRight(s);
            && |r| <= |s| && r == s[..|r|]
            && (r == [] || !IsSpace(r[|r| - 1]))
            && (forall k :: |r| <= k < |s| ==> IsSpace(s[k]))
    decreases |s|
  {
    if s != [] && IsSpace(s[|s| - 1]) {
      TrimRightRemovesTrailingSpace(s[..|s| - 1]);
    }
  }

  /** Go's `strings.TrimSpace`: drop the white space at both ends. */
  function TrimSpace(s: string): string {
    TrimRight(TrimLeft(s))
  }

  /**
   * `TrimSpace(s)` is the infix of `s` left once every leading and trailing
   * white-space character is removed: it neither starts nor ends with white
   * space, and all that was cut off on either side is white space.
   */
  lemma TrimSpaceIsInfix(s: string) returns (i: nat)
    ensures var r := TrimSpace(s);
            && i + |r| <= |s| && r == s[i..i + |r|]
            && (r == [] || (!IsSpace(r[0]) && !IsSpace(r[|r| - 1])))
            && (forall k :: 0 <= k < i ==> IsSpace(s[k]))
            && (forall k :: i + |r| <= k < |s| ==> IsSpace(s[k]))
  {
    var l := TrimLeft(s);
    TrimLeftRemovesLeadingSpace(s);
    TrimRightRemovesTrailingSpace(l);
    i := |s| - |l|;
    var r := TrimRight(l);
    assert forall k :: i + |r| <= k < |s| ==> s[k] == l[k - i];
  }

  /** A string with no white space at either end is its own trimming. */
  lemma TrimSpaceOfTrimmed(s: string)
    requires s == [] || (!IsSpace(s[0]) && !IsSpace(s[|s| - 1]))
    ensures TrimSpace(s) == s
  {
  }

  /** Trimming twice is trimming once. */
  lemma TrimSpaceIdempotent(s: string)
    ensures TrimSpace(TrimSpace(s)) == TrimSpace(s)
  {
    var _ := TrimSpaceIsInfix(s);
    TrimSpaceOfTrimmed(TrimSpace(s));
  }

  /** Go's `strings.Join(parts, ",")`; the inverse of `Split`. */
  function Join(parts: seq<string>): string
    requires |parts| >= 1
  {
    if |parts| == 1 then parts[0] else parts[0] + "," + Join(parts[1..])
  }

  /** Prepending a character to the first part prepends it to the joined string. */
  lemma JoinConsFirst(c: char, parts: seq<string>)
    requires |parts| >= 1
    ensures Join([[c] + parts[0]] + parts[1..]) == [c] + Join(parts)
  {
  }

  /**
   * Go's `strings.Split(s, ",")`: the pieces between the commas. It always
   * yields at least one piece (`Split("")` is `[""]`).
   */
  function Split(s: string): (r: seq<string>)
    ensures |r| >= 1
    decreases |s|
  {
    if s == [] then [""]
    else
      var rest := Split(s[1..]);
      if s[0] == ',' then [""] + rest
      else [[s[0]] + rest[0]] + rest[1..]
  }

  /** The pieces of `Split(s)` hold no comma, and joining them back with commas gives `s`. */
  lemma {:induction false} JoinSplit(s: string)
    ensures forall k :: 0 <= k < |Split(s)| ==> ',' !in Split(s)[k]
    ensures Join(Split(s)) == s
    decreases |s|
  {
    if s != [] {
      var rest := Split(s[1..]);
      JoinSplit(s[1..]);
      if s[0] == ',' {
        assert ([""] + rest)[1..] == rest;
      } else {
        JoinConsFirst(s[0], rest);
      }
    }
  }

  /** A comma-free string splits into itself alone. */
  lemma {:induction false} SplitNoComma(a: string)
    requires ',' !in a
    ensures Split(a) == [a]
    decreases |a|
  {
    if a != [] {
      SplitNoComma(a[1..]);
      assert [a[0]] + a[1..] == a;
    }
  }

  /** A comma-free head followed by a comma splits off as the first piece. */
  lemma {:induction false} SplitComma(a: string, t: string)
    requires ',' !in a
    ensures Split(a + "," + t) == [a] + Split(t)
    decreases |a|
  {
    var s := a + "," + t;
    if a == [] {
      assert s[1..] == t;
    } else {
      assert s[1..] == a[1..] + "," + t;
      SplitComma(a[1..], t);
      assert [a[0]] + a[1..] == a;
    }
  }

  /** Splitting undoes joining comma-free pieces: `Split` and `Join` are inverse. */
  lemma {:induction false} SplitJoin(parts: seq<string>)
    requires |parts| >= 1
    requires forall k :: 0 <= k < |parts| ==> ',' !in parts[k]
    ensures Split(Join(parts)) == parts
    decreases |parts|
  {
    if |parts| == 1 {
      SplitNoComma(parts[0]);
    } else {
      SplitComma(parts[0], Join(parts[1..]));
      SplitJoin(parts[1..]);
    }
  }
}
