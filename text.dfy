/** Character classes and string helpers of the reader (the `Utils` namespace of
    IniReader.h, whose `Strip` and `IsSpace` IniReader.cpp repeats word for word),
    with the few `std::string` searches the parser relies on. Characters are the
    "C" locale's ASCII classes. */
module IniText {

  datatype Option<T> = None | Some(value: T)

  /** `std::isspace`: space, tab, line feed, vertical tab, form feed, carriage return. */
  predicate IsSpaceChar(c: char) {
    c == ' ' || c == '\t' || c == '\n' || c == '\U{B}' || c == '\U{C}' || c == '\r'
  }

  /** `std::isdigit`. */
  predicate IsDigitChar(c: char) { '0' <= c <= '9' }

  /** `std::isalpha`. */
  predicate IsAlphaChar(c: char) { 'a' <= c <= 'z' || 'A' <= c <= 'Z' }

  /** `std::isalnum`. */
  predicate IsAlnumChar(c: char) { IsAlphaChar(c) || IsDigitChar(c) }

  /** `Utils::IsAlpha`: despite its name it tests `isalnum`, so digits pass, and
      `all_of` over an empty string is true. */
  predicate IsAlpha(s: string) { forall i :: 0 <= i < |s| ==> IsAlnumChar(s[i]) }

  /** `Utils::IsSpace`: every character is white space (true of ""). */
  predicate IsSpace(s: string) { forall i :: 0 <= i < |s| ==> IsSpaceChar(s[i]) }

  /** Number of leading white-space characters. */
  function LeadLen(s: string): (n: nat)
    ensures n <= |s|
    ensures forall i :: 0 <= i < n ==> IsSpaceChar(s[i])
    ensures n < |s| ==> !IsSpaceChar(s[n])
  {
    if s != [] && IsSpaceChar(s[0]) then 1 + LeadLen(s[1..]) else 0
  }

  /** Number of trailing white-space characters. */
  function TrailLen(s: string): (n: nat)
    ensures n <= |s|
    ensures forall i :: |s| - n <= i < |s| ==> IsSpaceChar(s[i])
    ensures n < |s| ==> !IsSpaceChar(s[|s| - n - 1])
  {
    if s != [] && IsSpaceChar(s[|s| - 1]) then 1 + TrailLen(s[..|s| - 1]) else 0
  }

  /** What `Utils::Strip` leaves of `s`: the leading white space erased, then the
      trailing white space of the rest. The result is the infix of `s` that neither
      starts nor ends with white space and is surrounded by white space only. */
  function Stripped(s: string): (r: string)
    ensures LeadLen(s) + |r| <= |s| && r == s[LeadLen(s)..LeadLen(s) + |r|]
    ensures IsSpace(s[..LeadLen(s)]) && IsSpace(s[LeadLen(s) + |r|..])
    ensures r != [] ==> !IsSpaceChar(r[0]) && !IsSpaceChar(r[|r| - 1])
    ensures r == [] <==> IsSpace(s)
  {
    var t := s[LeadLen(s)..];
    var r := t[..|t| - TrailLen(t)];
    assert s[LeadLen(s) + |r|..] == t[|t| - TrailLen(t)..];
    assert r == [] ==> s == s[..LeadLen(s)] + t[|t| - TrailLen(t)..];
    r
  }

  /** A white-space-free string is its own stripped form. */
  lemma StrippedNoSpace(s: string)
    requires forall i :: 0 <= i < |s| ==> !IsSpaceChar(s[i])
    ensures Stripped(s) == s
  {
    assert LeadLen(s) == 0 by {
      if s != [] { assert !IsSpaceChar(s[0]); }
    }
    assert TrailLen(s) == 0 by {
      if s != [] { assert !IsSpaceChar(s[|s| - 1]); }
    }
  }

  /** A string that neither starts nor ends with white space is its own stripped form. */
  lemma StrippedTrimmed(s: string)
    requires s != [] ==> !IsSpaceChar(s[0]) && !IsSpaceChar(s[|s| - 1])
    ensures Stripped(s) == s
  {
  }

  /** Stripping a string padded by white space on both sides gives its core back,
      when the core itself is trimmed. */
  lemma StrippedPadded(pre: string, core: string, post: string)
    requires IsSpace(pre) && IsSpace(post)
    requires core != [] && !IsSpaceChar(core[0]) && !IsSpaceChar(core[|core| - 1])
    ensures Stripped(pre + core + post) == core
  {
    var s := pre + core + post;
    assert s == pre + (core + post);
    LeadLenPadded(pre, core + post);
    var t := s[|pre|..];
    assert t == core + post;
    TrailLenPadded(core, post);
    assert t[..|t| - |post|] == core;
  }

  lemma {:induction false} LeadLenPadded(pre: string, rest: string)
    requires IsSpace(pre) && rest != [] && !IsSpaceChar(rest[0])
    ensures LeadLen(pre + rest) == |pre|
  {
    if pre != [] {
      assert (pre + rest)[1..] == pre[1..] + rest;
      LeadLenPadded(pre[1..], rest);
    } else {
      assert pre + rest == rest;
    }
  }

  lemma {:induction false} TrailLenPadded(rest: string, post: string)
    requires IsSpace(post) && rest != [] && !IsSpaceChar(rest[|rest| - 1])
    ensures TrailLen(rest + post) == |post|
  {
    var s := rest + post;
    if post != [] {
      assert s[..|s| - 1] == rest + post[..|post| - 1];
      TrailLenPadded(rest, post[..|post| - 1]);
    } else {
      assert s == rest;
    }
  }

  /** `Utils::Strip`, erasing the white space at both ends: the same scans the
      two `find_if_not` calls make, from the front and then from the back. */
  method Strip(s: string) returns (r: string)
    ensures r == Stripped(s)
  {
    var b := 0;
    while b < |s| && IsSpaceChar(s[b])
      invariant 0 <= b <= |s|
      invariant forall i :: 0 <= i < b ==> IsSpaceChar(s[i])
    {
      b := b + 1;
    }
    assert b == LeadLen(s);
    var e := |s|;
    while e > b && IsSpaceChar(s[e - 1])
      invariant b <= e <= |s|
      invariant forall i :: e <= i < |s| ==> IsSpaceChar(s[i])
    {
      e := e - 1;
    }
    ghost var t := s[b..];
    assert |t| - TrailLen(t) == e - b;
    r := s[b..e];
  }

  /** `s.find_first_of(cs, from)`, and `s.find(c, from)` when `cs == {c}`: the first
      index at or after `from` holding one of `cs`, or none. */
  function FindFirstOf(s: string, cs: set<char>, from: nat): (r: Option<nat>)
    decreases |s| - from
    ensures r.Some? ==> from <= r.value < |s| && s[r.value] in cs
    ensures r.Some? ==> forall j :: from <= j < r.value ==> s[j] !in cs
    ensures r.None? ==> forall j :: from <= j < |s| ==> s[j] !in cs
  {
    if from >= |s| then None
    else if s[from] in cs then Some(from)
    else FindFirstOf(s, cs, from + 1)
  }

  /** `s.find(c)` for a character known to occur. */
  function IndexOf(s: string, c: char): (i: nat)
    requires c in s
    ensures i < |s| && s[i] == c && c !in s[..i]
  {
    FindFirstOf(s, {c}, 0).value
  }

  /** `std::count(s.begin(), s.end(), c)`. */
  function Count(s: string, c: char): nat { multiset(s)[c] }

  /** The text the renderers produce from a list of parts: the parts in order with
      `sep` between neighbours (the `firstLine` loops of the `operator<<`s). */
  function Join(parts: seq<string>, sep: string): string
  {
    if |parts| == 0 then ""
    else if |parts| == 1 then parts[0]
    else parts[0] + sep + Join(parts[1..], sep)
  }

  /** The pieces of `s` between occurrences of `c` (as many pieces as separators plus one). */
  function Split(s: string, c: char): (r: seq<string>)
    decreases |s|
    ensures |r| >= 1
    ensures forall k :: 0 <= k < |r| ==> c !in r[k]
  {
    match FindFirstOf(s, {c}, 0)
    case None => [s]
    case Some(i) => [s[..i]] + Split(s[i + 1..], c)
  }

  /** Splitting at a separator that starts the second half of a string. */
  lemma {:induction false} SplitAppend(a: string, c: char, b: string)
    requires c !in a
    ensures Split(a + [c] + b, c) == [a] + Split(b, c)
  {
    var s := a + [c] + b;
    assert s[|a|] == c;
    assert forall j :: 0 <= j < |a| ==> s[j] == a[j];
    assert FindFirstOf(s, {c}, 0) == Some(|a|);
    assert s[..|a|] == a && s[|a| + 1..] == b;
  }

  /** Joining pieces free of `c` with `c` and splitting at `c` gives the pieces back. */
  lemma {:induction false} SplitJoin(parts: seq<string>, c: char)
    requires |parts| >= 1
    requires forall k :: 0 <= k < |parts| ==> c !in parts[k]
    ensures Split(Join(parts, [c]), c) == parts
  {
    if |parts| == 1 {
      assert FindFirstOf(parts[0], {c}, 0).None?;
    } else {
      SplitJoin(parts[1..], c);
      SplitAppend(parts[0], c, Join(parts[1..], [c]));
      assert [parts[0]] + parts[1..] == parts;
    }
  }
}
