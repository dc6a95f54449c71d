/** The parts of std::string the server relies on: the character-set searches
    (find_first_of, find_last_of, find_first_not_of, find_last_not_of, find),
    substr with its clamp-to-end and out_of_range behaviour, and the 64-bit
    size_t arithmetic (including npos and wrap-around) done on their results. */
module CppString {
  import opened Results

  /** size_t is 64 bits wide; its arithmetic wraps modulo 2^64. */
  const SIZE_MODULUS: nat := 0x1_0000_0000_0000_0000

  /** std::string::npos, the largest size_t value. */
  const NPOS: nat := SIZE_MODULUS - 1

  type Size = x: int | 0 <= x < SIZE_MODULUS

  /** Every std::string is shorter than npos (its max_size() is smaller), so a
      found position can never be confused with npos. */
  predicate Fits(s: string) {
    |s| < NPOS
  }

  /** Unsigned addition, wrapping past 2^64 - 1 back to 0. */
  function SizeAdd(a: Size, b: Size): (r: Size)
    ensures r == a + b || r == a + b - SIZE_MODULUS
    ensures a + b < SIZE_MODULUS ==> r == a + b
  {
    if a + b < SIZE_MODULUS then a + b else a + b - SIZE_MODULUS
  }

  /** Unsigned subtraction, wrapping below 0 up to 2^64 - 1. */
  function SizeSub(a: Size, b: Size): (r: Size)
    ensures r == a - b || r == a - b + SIZE_MODULUS
    ensures b <= a ==> r == a - b
  {
    if b <= a then a - b else a - b + SIZE_MODULUS
  }

  /** The size_t a search returns: the position found, or npos. */
  function AsSize(found: Option<nat>): (r: Size)
    requires found.Some? ==> found.value < NPOS
    ensures found.None? <==> r == NPOS
    ensures found.Some? ==> r == found.value
  {
    if found.None? then NPOS else found.value
  }

  /** The line-end characters, as the set the searches for "\r\n" look for. */
  const LINE_ENDS: set<char> := {'\r', '\n'}

  /** Text with no CR and no LF in it. */
  predicate OneLine(t: string) {
    forall i | 0 <= i < |t| :: t[i] !in LINE_ENDS
  }

  /** The first position at or after `pos` whose character is in `chars`
      (`member`) or not in `chars` (`!member`). The string argument of
      find_first_of and its kin is a set of characters, each a candidate on its
      own, never a substring to search for; so it is a set here. */
  function FindFirst(s: string, chars: set<char>, pos: nat, member: bool): (r: Option<nat>)
    ensures r.Some? ==> pos <= r.value < |s| && (s[r.value] in chars) == member
    ensures forall i | pos <= i < |s| && (r.None? || i < r.value) :: (s[i] in chars) != member
    decreases |s| - pos
  {
    if pos >= |s| then None
    else if (s[pos] in chars) == member then Some(pos)
    else FindFirst(s, chars, pos + 1, member)
  }

  /** The last position before `end` whose membership in `chars` is `member`. */
  function FindLastBefore(s: string, chars: set<char>, end: nat, member: bool): (r: Option<nat>)
    requires end <= |s|
    ensures r.Some? ==> r.value < end && (s[r.value] in chars) == member
    ensures forall i | 0 <= i < end && (r.None? || r.value < i) :: (s[i] in chars) != member
    decreases end
  {
    if end == 0 then None
    else if (s[end - 1] in chars) == member then Some(end - 1)
    else FindLastBefore(s, chars, end - 1, member)
  }

  function FindFirstOf(s: string, chars: set<char>, pos: nat): Option<nat> {
    FindFirst(s, chars, pos, true)
  }

  function FindFirstNotOf(s: string, chars: set<char>, pos: nat): Option<nat> {
    FindFirst(s, chars, pos, false)
  }

  /** string::find for a single character. */
  function Find(s: string, c: char, pos: nat): Option<nat> {
    FindFirst(s, {c}, pos, true)
  }

  function FindLastOf(s: string, chars: set<char>): Option<nat> {
    FindLastBefore(s, chars, |s|, true)
  }

  function FindLastNotOf(s: string, chars: set<char>): Option<nat> {
    FindLastBefore(s, chars, |s|, false)
  }

  /** string::substr(pos, count) for a start position the caller knows to be in
      range: at most `count` characters, stopping at the end of `s`. */
  function SubstrInRange(s: string, pos: nat, count: nat): (r: string)
    requires pos <= |s|
    ensures r <= s[pos..] && |r| <= count
    ensures |r| == count || pos + |r| == |s|
  {
    if count <= |s| - pos then s[pos..pos + count] else s[pos..]
  }

  /** string::substr(pos, count) in general: throws when `pos` is past the end. */
  function Substr(s: string, pos: nat, count: nat): (r: Result<string>)
    ensures r.Failure? <==> pos > |s|
    ensures r.Failure? ==> r.error == SubstrOutOfRange(pos, |s|)
    ensures r.Success? ==> r.value == SubstrInRange(s, pos, count)
  {
    if pos > |s| then Failure(SubstrOutOfRange(pos, |s|)) else Success(SubstrInRange(s, pos, count))
  }

  /** A search result pinned down by its witness: `i` qualifies and nothing
      between `pos` and `i` does. */
  lemma FindFirstAt(s: string, chars: set<char>, pos: nat, member: bool, i: nat)
    requires pos <= i < |s| && (s[i] in chars) == member
    requires forall j | pos <= j < i :: (s[j] in chars) != member
    ensures FindFirst(s, chars, pos, member) == Some(i)
  {
  }

  lemma FindFirstNone(s: string, chars: set<char>, pos: nat, member: bool)
    requires forall j | pos <= j < |s| :: (s[j] in chars) != member
    ensures FindFirst(s, chars, pos, member) == None
  {
  }

  lemma FindLastAt(s: string, chars: set<char>, member: bool, i: nat)
    requires i < |s| && (s[i] in chars) == member
    requires forall j | i < j < |s| :: (s[j] in chars) != member
    ensures FindLastBefore(s, chars, |s|, member) == Some(i)
  {
  }

  /** A suffix that is a concatenation splits the string at the boundary. */
  lemma SplitSuffix(s: string, pos: nat, a: string, b: string)
    requires pos <= |s| && s[pos..] == a + b
    ensures pos + |a| <= |s|
    ensures s[pos..pos + |a|] == a && s[pos + |a|..] == b
  {
    assert s[pos..][..|a|] == a;
    assert s[pos..][|a|..] == b;
  }
}
