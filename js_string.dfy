/**
 * The JavaScript string built-ins that `updateChangelog` relies on:
 * `trim`, `trimStart`, `trimEnd`, `includes` and `indexOf`, over
 * strings seen as sequences of characters.
 */
module JsString {

  /**
   * The characters JavaScript's trimming methods strip: the ECMAScript
   * WhiteSpace set (tab, vertical tab, form feed, space, no-break space,
   * byte order mark and the other Unicode space separators) and the
   * LineTerminator set (line feed, carriage return, line and paragraph
   * separators).
   */
  const WhiteSpace: set<char> := {
    '\t', '\U{000B}', '\U{000C}', ' ', '\U{00A0}', '\U{FEFF}',
    '\U{1680}', '\U{2000}', '\U{2001}', '\U{2002}', '\U{2003}', '\U{2004}', '\U{2005}',
    '\U{2006}', '\U{2007}', '\U{2008}', '\U{2009}', '\U{200A}', '\U{202F}', '\U{205F}', '\U{3000}',
    '\n', '\r', '\U{2028}', '\U{2029}'
  }

  predicate IsWs(c: char)
  {
    c in WhiteSpace
  }

  /** Every character of `s` is whitespace (the empty string included). */
  predicate AllWs(s: string)
  {
    forall i :: 0 <= i < |s| ==> IsWs(s[i])
  }

  /** `s.trimStart()`: `s` without its leading whitespace (see `TrimStartSpec`). */
  function TrimStart(s: string): (r: string)
    ensures |r| <= |s|
    ensures r == [] || !IsWs(r[0])
  {
    if s != [] && IsWs(s[0]) then TrimStart(s[1..]) else s
  }

  /** `s.trimEnd()`: `s` without its trailing whitespace (see `TrimEndSpec`). */
  function TrimEnd(s: string): (r: string)
    ensures |r| <= |s|
    ensures r == [] || !IsWs(r[|r| - 1])
  {
    if s != [] && IsWs(s[|s| - 1]) then TrimEnd(s[..|s| - 1]) else s
  }

  /**
   * `TrimStart(s)` is a suffix of `s`, and what it removes is all
   * whitespace: with the other half of its contract, it is the longest
   * suffix of `s` that does not begin with whitespace.
   */
  lemma {:induction false} TrimStartSpec(s: string)
    ensures TrimStart(s) == s[|s| - |TrimStart(s)|..]
    ensures AllWs(s[..|s| - |TrimStart(s)|])
  {
    if s != [] && IsWs(s[0]) {
      TrimStartSpec(s[1..]);
      var k := |s[1..]| - |TrimStart(s[1..])|;
      assert s[..k + 1] == [s[0]] + s[1..][..k];
    }
  }

  /**
   * `TrimEnd(s)` is a prefix of `s`, and what it removes is all
   * whitespace: with the other half of its contract, it is the longest
   * prefix of `s` that does not end with whitespace.
   */
  lemma {:induction false} TrimEndSpec(s: string)
    ensures TrimEnd(s) == s[..|TrimEnd(s)|]
    ensures AllWs(s[|TrimEnd(s)|..])
  {
    if s != [] && IsWs(s[|s| - 1]) {
      var init := s[..|s| - 1];
      TrimEndSpec(init);
      var n := |TrimEnd(init)|;
      assert s[n..] == init[n..] + [s[|s| - 1]];
    }
  }

  /**
   * `s.trim()`: whitespace removed from both ends; neither end of a
   * non-empty result is whitespace.
   */
  function Trim(s: string): (r: string)
    ensures r == [] || (!IsWs(r[0]) && !IsWs(r[|r| - 1]))
  {
    var t := TrimStart(s);
    TrimEndSpec(t);
    TrimEnd(t)
  }

  /** `s.trim()` is empty exactly when `s` is all whitespace. */
  lemma TrimEmpty(s: string)
    ensures Trim(s) == [] <==> AllWs(s)
  {
    var t := TrimStart(s);
    TrimStartSpec(s);
    TrimEndSpec(t);
    var lo := |s| - |t|;
    assert s == s[..lo] + t;
    if Trim(s) == [] {
      assert t == [] by {
        if t != [] {
          assert false;
        }
      }
      forall i | 0 <= i < |s| ensures IsWs(s[i]) {
        assert s[..lo][i] == s[i];
      }
    } else if AllWs(s) {
      assert false;
    }
  }

  /**
   * `Trim(s)` is the slice of `s` starting at `lo`, with nothing but
   * whitespace before and after it.
   */
  lemma TrimIsSlice(s: string) returns (lo: nat)
    ensures lo + |Trim(s)| <= |s| && s[lo..lo + |Trim(s)|] == Trim(s)
    ensures AllWs(s[..lo]) && AllWs(s[lo + |Trim(s)|..])
  {
    var t := TrimStart(s);
    TrimStartSpec(s);
    TrimEndSpec(t);
    lo := |s| - |t|;
    var r := TrimEnd(t);
    assert s[lo..] == t;
    assert s[lo..lo + |r|] == t[..|r|];
    assert s[lo + |r|..] == t[|r|..];
  }

  /** `sub` occurs in `s` starting at index `i`. */
  predicate OccursAt(s: string, sub: string, i: int)
  {
    0 <= i && i + |sub| <= |s| && s[i..i + |sub|] == sub
  }

  /** `s.includes(sub)`: `sub` occurs somewhere in `s`. */
  predicate Contains(s: string, sub: string)
  {
    exists i | 0 <= i <= |s| - |sub| :: OccursAt(s, sub, i)
  }

  /** The first occurrence of `sub` in `s` at or after index `from`, or -1. */
  function IndexFrom(s: string, sub: string, from: nat): (r: int)
    requires from <= |s| + 1
    ensures r == -1 || (from <= r && OccursAt(s, sub, r))
    ensures forall j :: from <= j && (r == -1 || j < r) ==> !OccursAt(s, sub, j)
    decreases |s| + 1 - from
  {
    if |s| < from + |sub| then -1
    else if s[from..from + |sub|] == sub then from
    else IndexFrom(s, sub, from + 1)
  }

  /**
   * `s.indexOf(sub)`: the index of the first occurrence of `sub` in `s`,
   * or -1 when there is none.
   */
  function IndexOf(s: string, sub: string): (r: int)
    ensures r == -1 <==> !Contains(s, sub)
    ensures r != -1 ==> OccursAt(s, sub, r) && forall j :: 0 <= j < r ==> !OccursAt(s, sub, j)
  {
    IndexFrom(s, sub, 0)
  }

  /** An occurrence inside either part of a concatenation survives the concatenation. */
  lemma ContainsInConcat(a: string, b: string, sub: string)
    requires Contains(a, sub) || Contains(b, sub)
    ensures Contains(a + b, sub)
  {
    if Contains(a, sub) {
      var i :| 0 <= i <= |a| - |sub| && OccursAt(a, sub, i);
      assert (a + b)[i..i + |sub|] == a[i..i + |sub|];
      assert OccursAt(a + b, sub, i);
    } else {
      var i :| 0 <= i <= |b| - |sub| && OccursAt(b, sub, i);
      assert (a + b)[|a| + i..|a| + i + |sub|] == b[i..i + |sub|];
      assert OccursAt(a + b, sub, |a| + i);
    }
  }

  /**
   * Trimming the end of `s` keeps every occurrence of a string that does
   * not itself end with whitespace.
   */
  lemma TrimEndKeeps(s: string, sub: string)
    requires Contains(s, sub)
    requires sub != [] && !IsWs(sub[|sub| - 1])
    ensures Contains(TrimEnd(s), sub)
  {
    var t := TrimEnd(s);
    TrimEndSpec(s);
    var i :| 0 <= i <= |s| - |sub| && OccursAt(s, sub, i);
    var last := i + |sub| - 1;
    assert s[last] == sub[|sub| - 1];
    if |t| <= last {
      assert false;
    }
    assert t[i..i + |sub|] == s[i..i + |sub|];
    assert OccursAt(t, sub, i);
  }
}
