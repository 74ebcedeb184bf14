/**
 * The parts of Python's `str` that the scraper relies on: `strip()`,
 * `lower()`, `upper()`, `replace()` of one character, the `in` test,
 * `split(sep)` and its inverse `sep.join(parts)`.
 */
module PyStr {
  import opened Wrappers

  /** `c.isspace()`: the characters Python's `str.strip()` removes. */
  predicate IsSpace(c: char) {
    || ('\t' <= c <= '\r')
    || ('\U{1C}' <= c <= ' ')
    || c == '\U{85}' || c == '\U{A0}' || c == '\U{1680}'
    || ('\U{2000}' <= c <= '\U{200A}')
    || c == '\U{2028}' || c == '\U{2029}' || c == '\U{202F}' || c == '\U{205F}' || c == '\U{3000}'
  }

  /** `s.lstrip()`: the longest suffix of `s` that does not start with whitespace. */
  function TrimStart(s: string): (r: string)
    ensures |r| <= |s| && r == s[|s| - |r|..]
    ensures forall k :: 0 <= k < |s| - |r| ==> IsSpace(s[k])
    ensures r != [] ==> !IsSpace(r[0])
  {
    if s != [] && IsSpace(s[0]) then TrimStart(s[1..]) else s
  }

  /** `s.rstrip()`: the longest prefix of `s` that does not end with whitespace. */
  function TrimEnd(s: string): (r: string)
    ensures |r| <= |s| && r == s[..|r|]
    ensures forall k :: |r| <= k < |s| ==> IsSpace(s[k])
    ensures r != [] ==> !IsSpace(r[|r| - 1])
  {
    if s != [] && IsSpace(s[|s| - 1]) then TrimEnd(s[..|s| - 1]) else s
  }

  /** `s.strip()`. */
  function Strip(s: string): (r: string)
    ensures |r| <= |s|
    ensures r != [] ==> !IsSpace(r[0]) && !IsSpace(r[|r| - 1])
  {
    TrimEnd(TrimStart(s))
  }

  /** Whitespace is all that `Strip` removes: it returns the unpadded core of a padded string. */
  lemma StripPadded(left: string, core: string, right: string)
    requires forall k :: 0 <= k < |left| ==> IsSpace(left[k])
    requires forall k :: 0 <= k < |right| ==> IsSpace(right[k])
    requires core != [] ==> !IsSpace(core[0]) && !IsSpace(core[|core| - 1])
    ensures Strip(left + core + right) == core
  {
    if core == [] {
      var s := left + core + right;
      assert forall k :: 0 <= k < |s| ==> IsSpace(s[k]);
    } else {
      TrimStartPadded(left, core + right);
      assert left + core + right == left + (core + right);
      TrimEndPadded(core, right);
    }
  }

  lemma {:induction false} TrimStartPadded(left: string, t: string)
    requires forall k :: 0 <= k < |left| ==> IsSpace(left[k])
    requires t != [] && !IsSpace(t[0])
    ensures TrimStart(left + t) == t
    decreases |left|
  {
    if left != [] {
      assert (left + t)[1..] == left[1..] + t;
      TrimStartPadded(left[1..], t);
    }
  }

  lemma {:induction false} TrimEndPadded(t: string, right: string)
    requires forall k :: 0 <= k < |right| ==> IsSpace(right[k])
    requires t != [] && !IsSpace(t[|t| - 1])
    ensures TrimEnd(t + right) == t
    decreases |right|
  {
    if right != [] {
      var r' := right[..|right| - 1];
      assert (t + right)[..|t + right| - 1] == t + r';
      TrimEndPadded(t, r');
    }
  }

  /** `Strip` leaves a string alone that neither starts nor ends with whitespace. */
  lemma StripUnpadded(s: string)
    requires s != [] ==> !IsSpace(s[0]) && !IsSpace(s[|s| - 1])
    ensures Strip(s) == s
  {
    StripPadded([], s, []);
    assert [] + s + [] == s;
  }

  /** One character of `str.lower()` (ASCII letters). */
  function LowerChar(c: char): char {
    if 'A' <= c <= 'Z' then (c as int + 32) as char else c
  }

  /** One character of `str.upper()` (ASCII letters). */
  function UpperChar(c: char): char {
    if 'a' <= c <= 'z' then (c as int - 32) as char else c
  }

  /** `s.lower()`. */
  function Lower(s: string): string {
    seq(|s|, i requires 0 <= i < |s| => LowerChar(s[i]))
  }

  /** `s.upper()`. */
  function Upper(s: string): string {
    seq(|s|, i requires 0 <= i < |s| => UpperChar(s[i]))
  }

  /** `s.replace(from, to)` for single characters. */
  function Replace(s: string, from: char, to: char): string {
    seq(|s|, i requires 0 <= i < |s| => if s[i] == from then to else s[i])
  }

  lemma LowerConcat(a: string, b: string)
    ensures Lower(a + b) == Lower(a) + Lower(b)
  {
  }

  lemma LowerOfLower(s: string)
    ensures Lower(Lower(s)) == Lower(s)
  {
  }

  /** Lower-casing forgets what upper-casing did: the two agree up to case. */
  lemma LowerOfUpper(s: string)
    ensures Lower(Upper(s)) == Lower(s)
  {
  }

  /** `sub` occurs in `s` starting at index `i`. */
  predicate OccursAt(s: string, sub: string, i: nat) {
    i + |sub| <= |s| && s[i..i + |sub|] == sub
  }

  /** The first index at or after `from` where `sub` occurs in `s` (`s.find(sub, from)`, `None` for -1). */
  function FindFrom(s: string, sub: string, from: nat): (r: Option<nat>)
    ensures r.Some? ==> from <= r.value && OccursAt(s, sub, r.value)
    ensures r.Some? ==> forall j :: from <= j < r.value ==> !OccursAt(s, sub, j)
    ensures r.None? ==> forall j :: from <= j ==> !OccursAt(s, sub, j)
    decreases |s| - from
  {
    if from + |sub| > |s| then None
    else if OccursAt(s, sub, from) then Some(from)
    else FindFrom(s, sub, from + 1)
  }

  /** `s.find(sub)`. */
  function Find(s: string, sub: string): Option<nat> {
    FindFrom(s, sub, 0)
  }

  /** `sub in s`. */
  predicate Contains(s: string, sub: string) {
    Find(s, sub).Some?
  }

  /** `sub in s` holds exactly when `sub` occurs somewhere in `s`. */
  lemma ContainsOccurs(s: string, sub: string, i: nat)
    requires OccursAt(s, sub, i)
    ensures Contains(s, sub)
  {
  }

  /** For one character, `[c] in s` is membership. */
  lemma ContainsChar(s: string, c: char)
    ensures Contains(s, [c]) <==> c in s
  {
    if c in s {
      var i :| 0 <= i < |s| && s[i] == c;
      assert OccursAt(s, [c], i);
    }
    if Contains(s, [c]) {
      var i := Find(s, [c]).value;
      assert s[i..i + 1] == [c];
      assert s[i] in s;
    }
  }

  /** `s.split(sep)`: the pieces between the non-overlapping occurrences of `sep`, left to right. */
  function Split(s: string, sep: string): (parts: seq<string>)
    requires sep != []
    ensures |parts| >= 1
    decreases |s|
  {
    match Find(s, sep)
    case None => [s]
    case Some(i) => [s[..i]] + Split(s[i + |sep|..], sep)
  }

  /** `sep.join(parts)`. */
  function Join(parts: seq<string>, sep: string): string
    requires |parts| >= 1
  {
    if |parts| == 1 then parts[0] else parts[0] + sep + Join(parts[1..], sep)
  }

  /** The last element of `s.split(sep)`: `s.split(sep)[-1]`. */
  function LastPart(s: string, sep: string): string
    requires sep != []
  {
    var parts := Split(s, sep); parts[|parts| - 1]
  }

  /** Joining the pieces of a split with the same separator gives back the string. */
  lemma {:induction false} SplitJoin(s: string, sep: string)
    requires sep != []
    ensures Join(Split(s, sep), sep) == s
    decreases |s|
  {
    match Find(s, sep)
    case None =>
    case Some(i) =>
      var rest := s[i + |sep|..];
      SplitJoin(rest, sep);
      JoinCons(s[..i], Split(rest, sep), sep);
      Reassemble(s, sep, i);
  }

  /** A string is the text before an occurrence, the occurrence, and the text after it. */
  lemma Reassemble(s: string, sub: string, i: nat)
    requires OccursAt(s, sub, i)
    ensures s == s[..i] + sub + s[i + |sub|..]
  {
  }

  lemma JoinCons(head: string, parts: seq<string>, sep: string)
    requires |parts| >= 1
    ensures Join([head] + parts, sep) == head + sep + Join(parts, sep)
  {
    assert ([head] + parts)[1..] == parts;
  }

  /** No piece of a split contains the separator. */
  lemma {:induction false} SplitPartsFree(s: string, sep: string)
    requires sep != []
    ensures forall k :: 0 <= k < |Split(s, sep)| ==> !Contains(Split(s, sep)[k], sep)
    decreases |s|
  {
    match Find(s, sep)
    case None =>
    case Some(i) =>
      var head, rest := s[..i], s[i + |sep|..];
      forall j: nat ensures !OccursAt(head, sep, j) {
        if j + |sep| <= |head| {
          assert head[j..j + |sep|] == s[j..j + |sep|];
          assert !OccursAt(s, sep, j);
        }
      }
      SplitPartsFree(rest, sep);
      var parts := Split(s, sep);
      assert parts == [head] + Split(rest, sep);
  }

  /** A string splits into two or more pieces exactly when it contains the separator. */
  lemma SplitCount(s: string, sep: string)
    requires sep != []
    ensures |Split(s, sep)| >= 2 <==> Contains(s, sep)
  {
  }

  /** Up to the first occurrence of the separator, the first piece of a split is the string itself. */
  lemma SplitHeadKeeps(s: string, sep: string, k: nat)
    requires sep != [] && k <= |s|
    requires forall j :: 0 <= j < k ==> !OccursAt(s, sep, j)
    ensures k <= |Split(s, sep)[0]| && Split(s, sep)[0][..k] == s[..k]
  {
  }

  /** The first piece of a split ends where the separator first occurs. */
  lemma SplitHeadStops(s: string, sep: string, k: nat)
    requires sep != [] && OccursAt(s, sep, k)
    requires forall j :: 0 <= j < k ==> !OccursAt(s, sep, j)
    ensures Split(s, sep)[0] == s[..k]
  {
  }

  /** A one-character string occurs exactly where that character stands. */
  lemma OccursAtChar(s: string, c: char)
    ensures forall j: nat :: OccursAt(s, [c], j) <==> j < |s| && s[j] == c
  {
    forall j: nat | j < |s| ensures OccursAt(s, [c], j) <==> s[j] == c {
      assert s[j..j + 1] == [s[j]];
    }
  }

  /** `Find` returns the first occurrence. */
  lemma FindIs(s: string, sub: string, i: nat)
    requires OccursAt(s, sub, i)
    requires forall j :: 0 <= j < i ==> !OccursAt(s, sub, j)
    ensures Find(s, sub) == Some(i)
  {
  }

  /** With a one-character separator, a last occurrence splits off the last piece. */
  lemma {:induction false} SplitSnoc(a: string, c: char, b: string)
    requires c !in b
    ensures Split(a + [c] + b, [c]) == Split(a, [c]) + [b]
    decreases |a|
  {
    var s := a + [c] + b;
    OccursAtChar(s, c);
    OccursAtChar(a, c);
    if c !in a {
      FindIs(s, [c], |a|);
      assert s[..|a|] == a && s[|a| + 1..] == b;
      NoCharNoOccurrence(a, c);
      NoCharNoOccurrence(b, c);
    } else {
      ContainsChar(a, c);
      var i := Find(a, [c]).value;
      FindIs(s, [c], i);
      assert s[..i] == a[..i];
      assert s[i + 1..] == a[i + 1..] + [c] + b;
      SplitSnoc(a[i + 1..], c, b);
    }
  }

  lemma NoCharNoOccurrence(s: string, c: char)
    requires c !in s
    ensures Split(s, [c]) == [s]
  {
    forall j: nat ensures !OccursAt(s, [c], j) {
      if j < |s| { assert s[j..j + 1] == [s[j]]; }
    }
  }

  /** With a one-character separator, the last piece is what follows its last occurrence. */
  lemma LastPartAfter(a: string, c: char, b: string)
    requires c !in b
    ensures LastPart(a + [c] + b, [c]) == b
  {
    SplitSnoc(a, c, b);
  }

  /** Splitting pieces joined by a one-character separator that none of them contains gives them back. */
  lemma {:induction false} JoinSplit(parts: seq<string>, c: char)
    requires |parts| >= 1
    requires forall k :: 0 <= k < |parts| ==> c !in parts[k]
    ensures Split(Join(parts, [c]), [c]) == parts
    decreases |parts|
  {
    if |parts| == 1 {
      NoCharNoOccurrence(parts[0], c);
    } else {
      var head, tail := parts[0], Join(parts[1..], [c]);
      var s := head + [c] + tail;
      assert OccursAt(s, [c], |head|);
      forall j | 0 <= j < |head| ensures !OccursAt(s, [c], j) {
        assert s[j..j + 1] == [head[j]];
      }
      assert s[..|head|] == head && s[|head| + 1..] == tail;
      JoinSplit(parts[1..], c);
    }
  }

  /** `s.replace(c, '')`. */
  function Remove(s: string, c: char): (r: string)
    ensures c !in r
    ensures forall k :: 0 <= k < |r| ==> r[k] in s
  {
    if s == [] then []
    else (if s[0] == c then [] else [s[0]]) + Remove(s[1..], c)
  }
}
