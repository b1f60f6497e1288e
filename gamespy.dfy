/** Extraction of one value from a GameSpy query string, a legacy wire format
    in which keys and values alternate between backslashes, for example
    \lc\1\challenge\DFDMXJLXJL\id\1\final\

    The key is searched for as a plain substring (its first occurrence), the
    value is the text after it up to the next backslash or the end of the
    message, and that value is copied, truncated to fit, into a caller-owned
    character buffer followed by a NUL terminator. */
module GamespyProtocol {

  datatype Option<+T> = None | Some(value: T)

  /** The field delimiter of the protocol. */
  const Backslash: char := '\\'

  /** The terminator of a C string. */
  const Nul: char := '\0'

  function Min(a: int, b: int): int
  {
    if a < b then a else b
  }

  // ---------------------------------------------------------------------
  // Substring search (std::string::find)
  // ---------------------------------------------------------------------

  /** `pat` occurs in `s` starting at index `p`. */
  predicate MatchAt(s: seq<char>, pat: seq<char>, p: nat)
  {
    p + |pat| <= |s| && s[p..p + |pat|] == pat
  }

  /** `pat` occurs somewhere in `s` as a contiguous substring. */
  ghost predicate Occurs(s: seq<char>, pat: seq<char>)
  {
    exists p: nat :: MatchAt(s, pat, p)
  }

  /** `p` is the leftmost occurrence of `pat` in `s`. */
  predicate LeftmostMatch(s: seq<char>, pat: seq<char>, p: nat)
  {
    MatchAt(s, pat, p) && forall q: nat :: q < p ==> !MatchAt(s, pat, q)
  }

  /** The first index at or after `from` where `pat` occurs in `s`, or None
      (npos) when there is none. An empty pattern occurs at `from` itself
      whenever `from <= |s|`. */
  function Find(s: seq<char>, pat: seq<char>, from: nat): (r: Option<nat>)
    ensures r.Some? ==> from <= r.value && MatchAt(s, pat, r.value)
    ensures r.Some? ==> forall q: nat :: from <= q < r.value ==> !MatchAt(s, pat, q)
    ensures r.None? ==> forall q: nat :: from <= q ==> !MatchAt(s, pat, q)
    decreases |s| - from
  {
    if |s| < from + |pat| then None
    else if MatchAt(s, pat, from) then Some(from)
    else Find(s, pat, from + 1)
  }

  // ---------------------------------------------------------------------
  // The value slot
  // ---------------------------------------------------------------------

  /** `v` is the value slot of `s` that starts at `start`: the text from
      `start` up to, not including, the next backslash, or up to the end of
      `s` when no backslash follows. */
  predicate IsSlot(s: seq<char>, start: nat, v: seq<char>)
  {
    start + |v| <= |s| && s[start..start + |v|] == v && Backslash !in v &&
    (start + |v| == |s| || s[start + |v|] == Backslash)
  }

  /** A start position has exactly one value slot. */
  lemma SlotUnique(s: seq<char>, start: nat, v: seq<char>, w: seq<char>)
    requires IsSlot(s, start, v) && IsSlot(s, start, w)
    ensures v == w
  {
  }

  /** A stretch of `s` in which no search for a backslash succeeds holds no
      backslash. */
  lemma NoBackslashBetween(s: seq<char>, start: nat, end: nat)
    requires start <= end <= |s|
    requires forall q: nat :: start <= q < end ==> !MatchAt(s, [Backslash], q)
    ensures Backslash !in s[start..end]
  {
    forall i | start <= i < end ensures s[i] != Backslash {
      assert !MatchAt(s, [Backslash], i);
      assert s[i..i + 1] == [s[i]];
    }
  }

  /** The value slot starting at `start`, found by searching for the next
      backslash at or after `start`. */
  function ValueSlot(s: seq<char>, start: nat): (v: seq<char>)
    requires start <= |s|
    ensures IsSlot(s, start, v)
  {
    match Find(s, [Backslash], start)
    case None =>
      var v := s[start..];
      NoBackslashBetween(s, start, |s|);
      v
    case Some(b) =>
      var v := s[start..b];
      NoBackslashBetween(s, start, b);
      assert s[b..b + 1] == [s[b]];
      v
  }

  // ---------------------------------------------------------------------
  // Looking a key up
  // ---------------------------------------------------------------------

  /** The value for `key` in `packet`: None when `key` does not occur,
      otherwise the value slot right after its leftmost occurrence. */
  function LookUp(packet: seq<char>, key: seq<char>): (r: Option<seq<char>>)
    ensures r.None? <==> !Occurs(packet, key)
    ensures r.Some? ==>
      exists p: nat :: LeftmostMatch(packet, key, p) && IsSlot(packet, p + |key|, r.value)
    ensures key == [] ==> r.Some? && IsSlot(packet, 0, r.value)
  {
    match Find(packet, key, 0)
    case None => None
    case Some(p) =>
      assert LeftmostMatch(packet, key, p);
      Some(ValueSlot(packet, p + |key|))
  }

  /** The converse of LookUp's contract: a leftmost occurrence of the key
      followed by a value slot determines the result. */
  lemma LookUpSpec(packet: seq<char>, key: seq<char>, p: nat, v: seq<char>)
    requires LeftmostMatch(packet, key, p)
    requires IsSlot(packet, p + |key|, v)
    ensures LookUp(packet, key) == Some(v)
  {
  }

  /** A key whose leftmost occurrence is followed directly by a backslash or
      by the end of the message has the empty value. */
  lemma EmptyValue(packet: seq<char>, key: seq<char>, p: nat)
    requires LeftmostMatch(packet, key, p)
    requires p + |key| == |packet| || packet[p + |key|] == Backslash
    ensures LookUp(packet, key) == Some([])
  {
  }

  /** A message holding `key` followed by a backslash-free `v` and then a
      backslash or the end of the message yields `v`, provided `key` does
      not occur earlier. */
  lemma WellFormedPair(pre: seq<char>, key: seq<char>, v: seq<char>, tail: seq<char>)
    requires Backslash !in v
    requires tail == [] || tail[0] == Backslash
    requires forall q: nat :: q < |pre| ==> !MatchAt(pre + key + v + tail, key, q)
    ensures LookUp(pre + key + v + tail, key) == Some(v)
  {
    var m := pre + key + v + tail;
    var p := |pre|;
    assert m[p..p + |key|] == key;
    assert m[p + |key|..p + |key| + |v|] == v;
    assert p + |key| + |v| < |m| ==> m[p + |key| + |v|] == tail[0];
    LookUpSpec(m, key, p, v);
  }

  // ---------------------------------------------------------------------
  // The caller's view of the destination buffer
  // ---------------------------------------------------------------------

  /** The C string that a reader of `buf` sees: the characters before the
      first NUL, or all of `buf` when it holds none. */
  function CStr(buf: seq<char>): (r: seq<char>)
    ensures r <= buf && Nul !in r
    ensures |r| == |buf| || buf[|r|] == Nul
  {
    if buf == [] || buf[0] == Nul then [] else [buf[0]] + CStr(buf[1..])
  }

  /** A buffer holding the NUL-free text `t` followed by a NUL reads back as
      `t`. */
  lemma TerminatedReadsBack(buf: seq<char>, t: seq<char>)
    requires Nul !in t && |t| < |buf|
    requires buf[..|t|] == t && buf[|t|] == Nul
    ensures CStr(buf) == t
  {
  }

  // ---------------------------------------------------------------------
  // GamespyProtocol::ValueForKey
  // ---------------------------------------------------------------------

  /** Looks `key` up in `packet` and copies at most `len - 1` characters of
      its value into `dest`, followed by a NUL. Returns 1 when the key was
      found and 0, leaving `dest` untouched, when it was not. The not-found
      path returns before `len` is used, so only a found key needs a
      capacity of at least one cell. */
  method ValueForKey(packet: seq<char>, key: seq<char>, dest: array<char>, len: int) returns (r: int)
    requires Nul !in packet && Nul !in key
    requires Occurs(packet, key) ==> 1 <= len <= dest.Length
    modifies dest
    ensures r == 0 || r == 1
    ensures r == 1 <==> Occurs(packet, key)
    ensures r == 0 ==> dest[..] == old(dest[..])
    ensures r == 1 ==>
      LookUp(packet, key).Some? &&
      var v := LookUp(packet, key).value;
      var n := Min(len - 1, |v|);
      dest[..n] == v[..n] && dest[n] == Nul && dest[n + 1..] == old(dest[n + 1..]) &&
      CStr(dest[..]) == v[..n]
    ensures forall k :: 0 <= k < dest.Length && len <= k ==> dest[k] == old(dest[k])
  {
    var found := LookUp(packet, key);
    if found.None? {
      return 0;
    }
    var v := found.value;
    assert Nul !in v by {
      var p: nat :| LeftmostMatch(packet, key, p) && IsSlot(packet, p + |key|, v);
      forall i | 0 <= i < |v| ensures v[i] != Nul {
        assert v[i] == packet[p + |key| + i];
      }
    }
    var n := Min(len - 1, |v|);
    for i := 0 to n
      invariant forall k :: 0 <= k < i ==> dest[k] == v[k]
      invariant forall k :: i <= k < dest.Length ==> dest[k] == old(dest[k])
    {
      dest[i] := v[i];
    }
    dest[n] := Nul;
    assert dest[..n] == v[..n];
    TerminatedReadsBack(dest[..], v[..n]);
    return 1;
  }
}
