/**
 The parts of Go's `strings` and `unicode` packages that the policy engine
 relies on: `unicode.IsSpace`, `strings.TrimSpace`, and `strings.Split` with a
 one-character separator (used to split the comma-separated author list).
 */
module GoStrings {

  /** `unicode.IsSpace`: the Unicode White_Space property. */
  predicate IsSpace(c: char) {
    || c == '\t' || c == '\n' || c == '\U{000B}' || c == '\U{000C}' || c == '\r'
    || c == ' ' || c == '\U{0085}' || c == '\U{00A0}' || c == '\U{1680}'
    || ('\U{2000}' <= c <= '\U{200A}')
    || c == '\U{2028}' || c == '\U{2029}' || c == '\U{202F}' || c == '\U{205F}'
    || c == '\U{3000}'
  }

  /** Length of the run of white space that starts `s`. */
  function LeadingSpaces(s: string): (n: nat)
    ensures n <= |s|
    ensures forall k :: 0 <= k < n ==> IsSpace(s[k])
    ensures n == |s| || !IsSpace(s[n])
  {
    if s != [] && IsSpace(s[0]) then 1 + LeadingSpaces(s[1..]) else 0
  }

  /** Length of the run of white space that ends `s`. */
  function TrailingSpaces(s: string): (n: nat)
    ensures n <= |s|
    ensures forall k :: |s| - n <= k < |s| ==> IsSpace(s[k])
    ensures n == |s| || !IsSpace(s[|s| - n - 1])
  {
    if s != [] && IsSpace(s[|s| - 1]) then 1 + TrailingSpaces(s[..|s| - 1]) else 0
  }

  /**
   `strings.TrimSpace`: the infix of `s` left once all leading and trailing
   white space is removed. Everything dropped is white space, and the result
   neither starts nor ends with white space.
   */
  function TrimSpace(s: string): (r: string)
    ensures LeadingSpaces(s) + |r| <= |s|
    ensures r == s[LeadingSpaces(s)..LeadingSpaces(s) + |r|]
    ensures forall k :: LeadingSpaces(s) + |r| <= k < |s| ==> IsSpace(s[k])
    ensures r == [] || (!IsSpace(r[0]) && !IsSpace(r[|r| - 1]))
  {
    var t := s[LeadingSpaces(s)..];
    var r := t[..|t| - TrailingSpaces(t)];
    assert r != [] ==> r[0] == s[LeadingSpaces(s)];
    r
  }

  /** A string that neither starts nor ends with white space is its own trim. */
  lemma {:induction false} TrimSpaceOfTrimmed(s: string)
    requires s == [] || (!IsSpace(s[0]) && !IsSpace(s[|s| - 1]))
    ensures TrimSpace(s) == s
  {
    var r := TrimSpace(s);
    assert LeadingSpaces(s) == 0;
    assert |r| == |s|;
  }

  /** Trimming twice is trimming once. */
  lemma {:induction false} TrimSpaceIdempotent(s: string)
    ensures TrimSpace(TrimSpace(s)) == TrimSpace(s)
  {
    TrimSpaceOfTrimmed(TrimSpace(s));
  }

  /** A string made only of white space trims to the empty string. */
  lemma {:induction false} TrimSpaceAllSpace(s: string)
    requires forall k :: 0 <= k < |s| ==> IsSpace(s[k])
    ensures TrimSpace(s) == []
  {
    assert LeadingSpaces(s) == |s|;
  }

  /**
   Trimming keeps exactly the part between a run of white space in front and a
   run behind, when that part neither starts nor ends with white space.
   */
  lemma {:induction false} TrimSpaceBetween(front: string, t: string, back: string)
    requires forall k :: 0 <= k < |front| ==> IsSpace(front[k])
    requires forall k :: 0 <= k < |back| ==> IsSpace(back[k])
    requires t == [] || (!IsSpace(t[0]) && !IsSpace(t[|t| - 1]))
    ensures TrimSpace(front + t + back) == t
  {
    var s := front + t + back;
    if t == [] {
      assert s == front + back;
      assert forall k :: 0 <= k < |s| ==> IsSpace(s[k]) by {
        forall k | 0 <= k < |s| ensures IsSpace(s[k]) {
          if k < |front| { assert s[k] == front[k]; } else { assert s[k] == back[k - |front|]; }
        }
      }
      TrimSpaceAllSpace(s);
    } else {
      var i := |front|;
      LeadingSpacesBefore(front, t + back);
      assert s == front + (t + back);
      assert s[i + |t| - 1] == t[|t| - 1];
      forall k | i + |t| <= k < |s| ensures IsSpace(s[k]) {
        assert s[k] == back[k - i - |t|];
      }
      TrimSpaceKeeps(s, i, |t|);
      assert s[i..i + |t|] == t;
    }
  }

  /**
   When white space runs exactly up to `i`, and from `i + n` to the end, and
   `s[i + n - 1]` is not white space, trimming keeps `s[i..i + n]`.
   */
  lemma {:induction false} TrimSpaceKeeps(s: string, i: nat, n: nat)
    requires 0 < n && i + n <= |s|
    requires LeadingSpaces(s) == i
    requires !IsSpace(s[i + n - 1])
    requires forall k :: i + n <= k < |s| ==> IsSpace(s[k])
    ensures TrimSpace(s) == s[i..i + n]
  {
    var r := TrimSpace(s);
    assert r != [] ==> r[|r| - 1] == s[i + |r| - 1];
    assert |r| == n;
  }

  /** The leading white space of `front + rest` is `front` when `rest` starts otherwise. */
  lemma {:induction false} LeadingSpacesBefore(front: string, rest: string)
    requires forall k :: 0 <= k < |front| ==> IsSpace(front[k])
    requires rest != [] && !IsSpace(rest[0])
    ensures LeadingSpaces(front + rest) == |front|
  {
    var s := front + rest;
    assert s[|front|] == rest[0];
    assert forall k :: 0 <= k < |front| ==> s[k] == front[k];
  }

  /**
   `strings.Split(s, [sep])`: the pieces of `s` between occurrences of `sep`.
   There is always at least one piece; `Split("", sep)` is `[""]`.
   */
  function Split(s: string, sep: char): (parts: seq<string>)
    ensures |parts| == CountChar(s, sep) + 1
    ensures forall p :: p in parts ==> sep !in p
    ensures Join(parts, sep) == s
  {
    if s == [] then [[]]
    else
      var rest := Split(s[1..], sep);
      if s[0] == sep then
        assert s == [] + [sep] + Join(rest, sep);
        [[]] + rest
      else
        var parts := [[s[0]] + rest[0]] + rest[1..];
        assert parts[1..] == rest[1..];
        assert s == [s[0]] + s[1..];
        parts
  }

  /** Number of occurrences of `c` in `s`. */
  function CountChar(s: string, c: char): nat {
    if s == [] then 0 else (if s[0] == c then 1 else 0) + CountChar(s[1..], c)
  }

  /** `strings.Join(parts, [sep])`. */
  function Join(parts: seq<string>, sep: char): string {
    if parts == [] then []
    else if |parts| == 1 then parts[0]
    else parts[0] + [sep] + Join(parts[1..], sep)
  }

  /** Splitting a string that does not contain the separator yields it whole. */
  lemma {:induction false} SplitWithoutSep(s: string, sep: char)
    requires sep !in s
    ensures Split(s, sep) == [s]
  {
    if s != [] {
      assert sep !in s[1..];
      SplitWithoutSep(s[1..], sep);
    }
  }

  /** Splitting at the first separator peels off the first piece. */
  lemma {:induction false} SplitAtFirstSep(a: string, sep: char, b: string)
    requires sep !in a
    ensures Split(a + [sep] + b, sep) == [a] + Split(b, sep)
  {
    if a == [] {
      assert a + [sep] + b == [sep] + b;
      assert ([sep] + b)[1..] == b;
    } else {
      var s := a + [sep] + b;
      assert s[1..] == a[1..] + [sep] + b;
      assert sep !in a[1..];
      SplitAtFirstSep(a[1..], sep, b);
      assert [a[0]] + a[1..] == a;
    }
  }

  /**
   Joining separator-free pieces and splitting again gives the same pieces back,
   so `Split` is the exact inverse of `Join` on the pieces it can produce.
   */
  lemma {:induction false} SplitJoin(parts: seq<string>, sep: char)
    requires |parts| >= 1
    requires forall p :: p in parts ==> sep !in p
    ensures Split(Join(parts, sep), sep) == parts
  {
    if |parts| == 1 {
      SplitWithoutSep(parts[0], sep);
    } else {
      assert parts[0] in parts;
      assert forall p :: p in parts[1..] ==> p in parts;
      SplitJoin(parts[1..], sep);
      SplitAtFirstSep(parts[0], sep, Join(parts[1..], sep));
      assert [parts[0]] + parts[1..] == parts;
    }
  }
}
