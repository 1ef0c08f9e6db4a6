/**
 * The handful of Python string operations the logger relies on, with their
 * Python semantics: str.strip(), bytes.rstrip(), str.split(sep) and the
 * character-class substitution re.sub(r"[\:\-]", "", s).
 */
module Text {

  /** A character class given as inclusive ranges of code points. */
  type Class = seq<(int, int)>

  predicate InRanges(n: int, cls: Class)
    decreases |cls|
  {
    |cls| > 0 && (cls[0].0 <= n <= cls[0].1 || InRanges(n, cls[1..]))
  }

  predicate In(c: char, cls: Class) {
    InRanges(c as int, cls)
  }

  /** The code points for which Python's str.isspace() holds: Unicode White_Space
      plus the information separators U+001C..U+001F, as CPython defines it. */
  const UnicodeSpace: Class := [
    (0x09, 0x0D), (0x1C, 0x20), (0x85, 0x85), (0xA0, 0xA0), (0x1680, 0x1680),
    (0x2000, 0x200A), (0x2028, 0x2029), (0x202F, 0x202F), (0x205F, 0x205F), (0x3000, 0x3000)
  ]

  /** The bytes that bytes.rstrip() with no argument removes: \t, \n, \v, \f, \r and space. */
  const AsciiSpace: Class := [(0x09, 0x0D), (0x20, 0x20)]

  predicate IsSpace(c: char) {
    In(c, UnicodeSpace)
  }

  /** A code point outside every range of a class is not in it. */
  lemma {:induction false} OutsideRanges(n: int, cls: Class)
    requires forall i :: 0 <= i < |cls| ==> n < cls[i].0 || cls[i].1 < n
    ensures !InRanges(n, cls)
    decreases |cls|
  {
    if |cls| > 0 {
      OutsideRanges(n, cls[1..]);
    }
  }

  /** Visible ASCII characters, '-' and ':' among them, are not whitespace. */
  lemma VisibleAsciiNotSpace(c: char)
    requires 0x21 <= c as int <= 0x7E
    ensures !IsSpace(c)
  {
    var high := UnicodeSpace[2..];
    assert forall i :: 0 <= i < |high| ==> c as int < high[i].0;
    OutsideRanges(c as int, high);
    assert UnicodeSpace[1..][1..] == high;
  }

  /** Every character of s is in class ws. */
  predicate All(s: string, ws: Class) {
    forall i :: 0 <= i < |s| ==> In(s[i], ws)
  }

  /** Removes the longest suffix of characters in class ws. */
  function RStrip(s: string, ws: Class): (r: string)
    ensures |r| <= |s|
    ensures forall i :: 0 <= i < |r| ==> r[i] == s[i]
    ensures forall i :: |r| <= i < |s| ==> In(s[i], ws)
    ensures |r| > 0 ==> !In(r[|r| - 1], ws)
    decreases |s|
  {
    if |s| > 0 && In(s[|s| - 1], ws) then RStrip(s[..|s| - 1], ws) else s
  }

  /** Removes the longest prefix of characters in class ws. */
  function LStrip(s: string, ws: Class): (r: string)
    ensures |r| <= |s|
    ensures forall i :: 0 <= i < |r| ==> r[i] == s[|s| - |r| + i]
    ensures forall i :: 0 <= i < |s| - |r| ==> In(s[i], ws)
    ensures |r| > 0 ==> !In(r[0], ws)
    decreases |s|
  {
    if |s| > 0 && In(s[0], ws) then LStrip(s[1..], ws) else s
  }

  /** Stripping both ends leaves nothing exactly when every character is in ws. */
  lemma StripBothBlank(s: string, ws: Class)
    ensures |LStrip(RStrip(s, ws), ws)| == 0 <==> All(s, ws)
  {
  }

  /** What is left after stripping both ends starts and ends outside ws. */
  lemma StripBothEnds(s: string, ws: Class)
    ensures var r := LStrip(RStrip(s, ws), ws);
      |r| > 0 ==> !In(r[0], ws) && !In(r[|r| - 1], ws)
  {
    var t := RStrip(s, ws);
    var r := LStrip(t, ws);
    if |r| > 0 {
      assert r[|r| - 1] == t[|t| - 1];
    }
  }

  /** r is s with only characters of class ws removed, and only from its two
      ends: s is a run of ws, then r, then a run of ws. */
  predicate Trims(r: string, s: string, ws: Class) {
    exists lo :: 0 <= lo && lo + |r| <= |s| &&
      All(s[..lo], ws) && r == s[lo..lo + |r|] && All(s[lo + |r|..], ws)
  }

  /** r read off s from position lo onwards, with only ws around it. */
  lemma TrimsAt(r: string, s: string, ws: Class, lo: nat)
    requires lo + |r| <= |s|
    requires forall i :: 0 <= i < |r| ==> r[i] == s[lo + i]
    requires forall i :: 0 <= i < lo ==> In(s[i], ws)
    requires forall i :: lo + |r| <= i < |s| ==> In(s[i], ws)
    ensures Trims(r, s, ws)
  {
    var hi := lo + |r|;
    assert r == s[lo..hi];
    assert All(s[..lo], ws) by {
      forall i | 0 <= i < lo
        ensures In(s[..lo][i], ws)
      {
        assert s[..lo][i] == s[i];
      }
    }
    assert All(s[hi..], ws) by {
      forall i | 0 <= i < |s| - hi
        ensures In(s[hi..][i], ws)
      {
        assert s[hi..][i] == s[hi + i];
      }
    }
  }

  /** Where a trimmed run sits in s: a start with only ws before it and after
      its end. */
  lemma TrimsStart(r: string, s: string, ws: Class) returns (lo: nat)
    requires Trims(r, s, ws)
    ensures lo + |r| <= |s|
    ensures forall i :: 0 <= i < |r| ==> r[i] == s[lo + i]
    ensures forall i :: 0 <= i < lo ==> In(s[i], ws)
    ensures forall i :: lo + |r| <= i < |s| ==> In(s[i], ws)
  {
    lo :| 0 <= lo && lo + |r| <= |s| &&
      All(s[..lo], ws) && r == s[lo..lo + |r|] && All(s[lo + |r|..], ws);
    var hi := lo + |r|;
    forall i | 0 <= i < lo
      ensures In(s[i], ws)
    {
      assert s[..lo][i] == s[i];
    }
    forall i | hi <= i < |s|
      ensures In(s[i], ws)
    {
      assert s[hi..][i - hi] == s[i];
    }
  }

  /** Stripping both ends removes only ws, and only at the ends. */
  lemma StripBothTrims(s: string, ws: Class)
    ensures Trims(LStrip(RStrip(s, ws), ws), s, ws)
  {
    var t := RStrip(s, ws);
    var r := LStrip(t, ws);
    var lo := |t| - |r|;
    forall i | 0 <= i < |r|
      ensures r[i] == s[lo + i]
    {
      assert r[i] == t[lo + i];
    }
    forall i | 0 <= i < lo
      ensures In(s[i], ws)
    {
      assert t[i] == s[i];
    }
    TrimsAt(r, s, ws, lo);
  }

  /** Python's str.strip() with no argument. */
  function Strip(s: string): (r: string)
    ensures |r| == 0 <==> All(s, UnicodeSpace)
    ensures |r| > 0 ==> !IsSpace(r[0]) && !IsSpace(r[|r| - 1])
    ensures Trims(r, s, UnicodeSpace)
  {
    StripBothBlank(s, UnicodeSpace);
    StripBothEnds(s, UnicodeSpace);
    StripBothTrims(s, UnicodeSpace);
    LStrip(RStrip(s, UnicodeSpace), UnicodeSpace)
  }

  /** A string that trims to nothing is all ws. */
  lemma TrimsEmpty(s: string, ws: Class)
    requires Trims([], s, ws)
    ensures All(s, ws)
  {
    var lo := TrimsStart([], s, ws);
  }

  /** Two runs that both trim s and have no ws at their ends agree. */
  lemma TrimsUniqueNonEmpty(s: string, ws: Class, r: string, t: string)
    requires Trims(r, s, ws) && Trims(t, s, ws)
    requires |r| > 0 && !In(r[0], ws) && !In(r[|r| - 1], ws)
    requires |t| > 0 && !In(t[0], ws) && !In(t[|t| - 1], ws)
    ensures r == t
  {
    var lo := TrimsStart(r, s, ws);
    var lt := TrimsStart(t, s, ws);
    assert s[lo] == r[0] && s[lt] == t[0];
    assert lo == lt;
    assert s[lo + |r| - 1] == r[|r| - 1] && s[lt + |t| - 1] == t[|t| - 1];
    assert |r| == |t|;
    forall i | 0 <= i < |r|
      ensures r[i] == t[i]
    {
      assert r[i] == s[lo + i];
    }
  }

  /** Trims with non-ws ends has one solution: the run between the leading and
      the trailing run of ws. */
  lemma TrimsUnique(s: string, ws: Class, r: string, t: string)
    requires Trims(r, s, ws) && Trims(t, s, ws)
    requires |r| > 0 ==> !In(r[0], ws) && !In(r[|r| - 1], ws)
    requires |t| > 0 ==> !In(t[0], ws) && !In(t[|t| - 1], ws)
    ensures r == t
  {
    if |r| == 0 {
      var lo := TrimsStart(t, s, ws);
      TrimsEmpty(s, ws);
    } else if |t| == 0 {
      var lo := TrimsStart(r, s, ws);
      TrimsEmpty(s, ws);
    } else {
      TrimsUniqueNonEmpty(s, ws, r, t);
    }
  }

  /** The contract of Strip pins the result down: it is the only run of s with
      only whitespace around it and none at its ends. */
  lemma StripUnique(s: string, r: string)
    requires Trims(r, s, UnicodeSpace)
    requires |r| > 0 ==> !IsSpace(r[0]) && !IsSpace(r[|r| - 1])
    ensures r == Strip(s)
  {
    TrimsUnique(s, UnicodeSpace, r, Strip(s));
  }

  /** A run taken from a string free of the characters in drop is free of them too. */
  lemma TrimAvoids(r: string, s: string, ws: Class, drop: set<char>)
    requires Trims(r, s, ws)
    requires forall i :: 0 <= i < |s| ==> s[i] !in drop
    ensures forall i :: 0 <= i < |r| ==> r[i] !in drop
  {
    var lo := TrimsStart(r, s, ws);
    forall i | 0 <= i < |r|
      ensures r[i] !in drop
    {
      assert r[i] == s[lo + i];
    }
  }

  /** A string that neither starts nor ends with whitespace is left alone by Strip. */
  lemma StripUnpadded(s: string)
    requires |s| == 0 || (!IsSpace(s[0]) && !IsSpace(s[|s| - 1]))
    ensures Strip(s) == s
  {
  }

  /** Strip is idempotent. */
  lemma StripIdempotent(s: string)
    ensures Strip(Strip(s)) == Strip(s)
  {
    StripUnpadded(Strip(s));
  }

  /** Deletes every character in drop, keeping the others in order. */
  function Remove(s: string, drop: set<char>): (r: string)
    ensures |r| <= |s|
    ensures forall i :: 0 <= i < |r| ==> r[i] !in drop
  {
    if |s| == 0 then []
    else (if s[0] in drop then [] else [s[0]]) + Remove(s[1..], drop)
  }

  /** Remove keeps every occurrence of the characters it does not drop. */
  lemma {:induction false} RemoveKeeps(s: string, drop: set<char>, c: char)
    requires c !in drop
    ensures multiset(Remove(s, drop))[c] == multiset(s)[c]
    decreases |s|
  {
    if |s| > 0 {
      assert s == [s[0]] + s[1..];
      RemoveKeeps(s[1..], drop, c);
    }
  }

  /** Remove leaves a string with nothing to drop unchanged. */
  lemma {:induction false} RemoveNothing(s: string, drop: set<char>)
    requires forall i :: 0 <= i < |s| ==> s[i] !in drop
    ensures Remove(s, drop) == s
    decreases |s|
  {
    if |s| > 0 {
      RemoveNothing(s[1..], drop);
    }
  }

  /** Remove works character by character, so it distributes over concatenation. */
  lemma {:induction false} RemoveAppend(a: string, b: string, drop: set<char>)
    ensures Remove(a + b, drop) == Remove(a, drop) + Remove(b, drop)
    decreases |a|
  {
    if |a| > 0 {
      assert (a + b)[0] == a[0];
      assert (a + b)[1..] == a[1..] + b;
      RemoveAppend(a[1..], b, drop);
    } else {
      assert a + b == b;
    }
  }

  /** Index of the first occurrence of c in s. */
  function IndexOf(s: string, c: char): (i: nat)
    requires c in s
    ensures i < |s| && s[i] == c && c !in s[..i]
  {
    if s[0] == c then 0
    else
      assert s[1..][..IndexOf(s[1..], c)] == s[1..1 + IndexOf(s[1..], c)];
      1 + IndexOf(s[1..], c)
  }

  /** A position holding c with no earlier c is the one IndexOf finds. */
  lemma IndexOfUnique(s: string, c: char, i: nat)
    requires i < |s| && s[i] == c && c !in s[..i]
    ensures IndexOf(s, c) == i
  {
  }

  /** Reassembles pieces with sep between neighbours. */
  function Join(parts: seq<string>, sep: char): string
    requires |parts| >= 1
  {
    if |parts| == 1 then parts[0] else parts[0] + [sep] + Join(parts[1..], sep)
  }

  /** Python's str.split(sep) for a one-character separator: the pieces between
      separators, always at least one. */
  function Split(s: string, sep: char): (parts: seq<string>)
    ensures |parts| >= 1
    ensures sep in s <==> |parts| >= 2
    ensures forall i :: 0 <= i < |parts| ==> sep !in parts[i]
    ensures Join(parts, sep) == s
    decreases |s|
  {
    if sep !in s then [s]
    else
      var i := IndexOf(s, sep);
      var rest := Split(s[i + 1..], sep);
      assert ([s[..i]] + rest)[1..] == rest;
      assert s == s[..i] + [sep] + s[i + 1..];
      [s[..i]] + rest
  }

  /** Splitting undoes joining, provided no piece contains the separator. */
  lemma {:induction false} SplitJoin(parts: seq<string>, sep: char)
    requires |parts| >= 1
    requires forall i :: 0 <= i < |parts| ==> sep !in parts[i]
    ensures Split(Join(parts, sep), sep) == parts
    decreases |parts|
  {
    if |parts| > 1 {
      var s := Join(parts, sep);
      var tail := Join(parts[1..], sep);
      assert s == parts[0] + [sep] + tail;
      assert s[|parts[0]|] == sep;
      assert s[..|parts[0]|] == parts[0];
      IndexOfUnique(s, sep, |parts[0]|);
      assert s[|parts[0]| + 1..] == tail;
      SplitJoin(parts[1..], sep);
      assert parts == [parts[0]] + parts[1..];
    }
  }
}
