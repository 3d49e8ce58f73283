/** String helpers used by the note handlers: `String.prototype.trim`,
    `String.prototype.toLowerCase` (on ASCII letters) and
    `String.prototype.includes`. */
module Text {

  /** The characters `trim` strips: ECMAScript's WhiteSpace (TAB, VT, FF,
      SPACE, NO-BREAK SPACE, ZERO WIDTH NO-BREAK SPACE and the other
      space separators) and LineTerminator (LF, CR, LINE SEPARATOR,
      PARAGRAPH SEPARATOR) code points. */
  predicate IsTrimSpace(c: char) {
    var k := c as int;
    k == 0x09 || k == 0x0A || k == 0x0B || k == 0x0C || k == 0x0D ||
    k == 0x20 || k == 0xA0 || k == 0x1680 ||
    (0x2000 <= k <= 0x200A) ||
    k == 0x2028 || k == 0x2029 || k == 0x202F || k == 0x205F ||
    k == 0x3000 || k == 0xFEFF
  }

  predicate AllTrimSpace(s: string) {
    forall k :: 0 <= k < |s| ==> IsTrimSpace(s[k])
  }

  /** Neither end of `s` is a trim space (vacuously true of ""). */
  predicate Trimmed(s: string) {
    s != [] ==> !IsTrimSpace(s[0]) && !IsTrimSpace(s[|s| - 1])
  }

  /** Drops the leading trim spaces. */
  function TrimStart(s: string): string
    decreases |s|
  {
    if s != [] && IsTrimSpace(s[0]) then TrimStart(s[1..]) else s
  }

  /** Drops the trailing trim spaces. */
  function TrimEnd(s: string): string
    decreases |s|
  {
    if s != [] && IsTrimSpace(s[|s| - 1]) then TrimEnd(s[..|s| - 1]) else s
  }

  /** TrimStart keeps a suffix of `s`, everything it drops is trim space,
      and what it keeps does not start with one. */
  lemma {:induction false} TrimStartSpec(s: string)
    ensures var r := TrimStart(s);
      |r| <= |s| && r == s[|s| - |r|..] && AllTrimSpace(s[..|s| - |r|]) &&
      (r != [] ==> !IsTrimSpace(r[0]))
    decreases |s|
  {
    if s != [] && IsTrimSpace(s[0]) {
      TrimStartSpec(s[1..]);
      var r := TrimStart(s[1..]);
      var m := |s| - |r|;
      assert s[1..][m - 1..] == s[m..];
      assert forall k :: 0 < k < m ==> s[..m][k] == s[1..][..m - 1][k - 1];
    } else {
      assert s[..0] == [];
    }
  }

  /** TrimEnd keeps a prefix of `s`, everything it drops is trim space,
      and what it keeps does not end with one. */
  lemma {:induction false} TrimEndSpec(s: string)
    ensures var r := TrimEnd(s);
      |r| <= |s| && r == s[..|r|] && AllTrimSpace(s[|r|..]) &&
      (r != [] ==> !IsTrimSpace(r[|r| - 1]))
    decreases |s|
  {
    if s != [] && IsTrimSpace(s[|s| - 1]) {
      var n := |s| - 1;
      TrimEndSpec(s[..n]);
      var r := TrimEnd(s[..n]);
      assert s[..n][..|r|] == s[..|r|];
      assert forall k :: 0 <= k < n - |r| ==> s[|r|..][k] == s[..n][|r|..][k];
      assert s[|r|..][n - |r|] == s[n];
    } else {
      assert s[..|s|] == s;
    }
  }

  /** `r` is `s[i..i + |r|]`, everything around it is trim space and
      neither end of `r` is. */
  predicate TrimsTo(s: string, r: string, i: int) {
    0 <= i <= |s| - |r| && r == s[i..i + |r|] &&
    AllTrimSpace(s[..i]) && AllTrimSpace(s[i + |r|..]) && Trimmed(r)
  }

  /** `s.trim()`: what is left once the spaces at both ends are gone. */
  function Trim(s: string): string {
    TrimEnd(TrimStart(s))
  }

  /** `trim()` gives a slice of the input that neither starts nor ends with
      a trim space and has only trim space around it. */
  lemma TrimSpec(s: string)
    ensures exists i :: TrimsTo(s, Trim(s), i)
  {
    var t := TrimStart(s);
    var r := TrimEnd(t);
    TrimStartSpec(s);
    TrimEndSpec(t);
    var i := |s| - |t|;
    assert s[i..i + |r|] == t[..|r|] == r;
    assert s[i + |r|..] == t[|r|..];
    assert Trimmed(r) by {
      if r != [] { assert r[0] == t[0]; }
    }
    assert r == Trim(s);
    assert TrimsTo(s, r, i);
  }

  /** The leading spaces of `s` are exactly `s[..i]`: TrimStart keeps `s[i..]`. */
  lemma {:induction false} TrimStartUnique(s: string, i: int)
    requires 0 <= i <= |s| && AllTrimSpace(s[..i])
    requires i < |s| ==> !IsTrimSpace(s[i])
    ensures TrimStart(s) == s[i..]
    decreases i
  {
    if i > 0 {
      assert s[..i][0] == s[0];
      assert s[1..][..i - 1] == s[1..i];
      assert forall k :: 0 <= k < i - 1 ==> s[1..i][k] == s[..i][k + 1];
      TrimStartUnique(s[1..], i - 1);
      assert s[1..][i - 1..] == s[i..];
    }
  }

  /** The trailing spaces of `s` are exactly `s[j..]`: TrimEnd keeps `s[..j]`. */
  lemma {:induction false} TrimEndUnique(s: string, j: int)
    requires 0 <= j <= |s| && AllTrimSpace(s[j..])
    requires 0 < j ==> !IsTrimSpace(s[j - 1])
    ensures TrimEnd(s) == s[..j]
    decreases |s| - j
  {
    if j < |s| {
      var n := |s| - 1;
      assert s[j..][n - j] == s[n];
      assert s[..n][j..] == s[j..n];
      assert forall k :: 0 <= k < n - j ==> s[j..n][k] == s[j..][k];
      TrimEndUnique(s[..n], j);
      assert s[..n][..j] == s[..j];
    }
  }

  /** The characterisation in Trim's contract determines its result. */
  lemma TrimUnique(s: string, i: int, j: int)
    requires 0 <= i <= j <= |s|
    requires AllTrimSpace(s[..i]) && AllTrimSpace(s[j..]) && Trimmed(s[i..j])
    ensures Trim(s) == s[i..j]
  {
    if i < j {
      TrimVisible(s, i, j);
    } else {
      TrimBlank(s, i);
    }
  }

  lemma TrimVisible(s: string, i: int, j: int)
    requires 0 <= i < j <= |s|
    requires AllTrimSpace(s[..i]) && AllTrimSpace(s[j..]) && Trimmed(s[i..j])
    ensures TrimEnd(TrimStart(s)) == s[i..j]
  {
    assert !IsTrimSpace(s[i]) by { assert s[i] == s[i..j][0]; }
    TrimStartUnique(s, i);
    TrimEndOfSuffix(s, i, j);
  }

  lemma TrimEndOfSuffix(s: string, i: int, j: int)
    requires 0 <= i < j <= |s|
    requires AllTrimSpace(s[j..]) && Trimmed(s[i..j])
    ensures TrimEnd(s[i..]) == s[i..j]
  {
    var t := s[i..];
    assert !IsTrimSpace(t[j - i - 1]) by { assert t[j - i - 1] == s[i..j][j - i - 1]; }
    assert t[j - i..] == s[j..];
    TrimEndUnique(t, j - i);
    assert t[..j - i] == s[i..j];
  }

  lemma TrimBlank(s: string, i: int)
    requires 0 <= i <= |s|
    requires AllTrimSpace(s[..i]) && AllTrimSpace(s[i..])
    ensures TrimEnd(TrimStart(s)) == []
  {
    forall k | 0 <= k < |s| ensures IsTrimSpace(s[k]) {
      if k < i { assert s[..i][k] == s[k]; } else { assert s[i..][k - i] == s[k]; }
    }
    assert s[..|s|] == s;
    TrimStartUnique(s, |s|);
  }

  /** Trimming an already trimmed string changes nothing. */
  lemma TrimIdempotent(s: string)
    ensures Trim(Trim(s)) == Trim(s)
  {
    var r := Trim(s);
    TrimSpec(s);
    var i :| TrimsTo(s, r, i);
    assert r[..0] == [] && r[|r|..] == [] && r[0..|r|] == r;
    TrimUnique(r, 0, |r|);
  }

  /** `trim()` yields "" exactly when every character is a trim space:
      the condition under which the handlers refuse the input. */
  lemma TrimEmptyIff(s: string)
    ensures Trim(s) == [] <==> AllTrimSpace(s)
  {
    if AllTrimSpace(s) {
      assert s[..0] == [] && s[0..0] == [];
      TrimUnique(s, 0, 0);
    }
    if Trim(s) == [] {
      TrimSpec(s);
      var i :| TrimsTo(s, [], i);
      forall k | 0 <= k < |s| ensures IsTrimSpace(s[k]) {
        if k < i { assert s[..i][k] == s[k]; } else { assert s[i..][k - i] == s[k]; }
      }
    }
  }

  /** `toLowerCase` of one character, on the ASCII letters A-Z. */
  function LowerChar(c: char): char {
    if 'A' <= c <= 'Z' then (c as int + 32) as char else c
  }

  /** `s.toLowerCase()`, character by character. */
  function ToLower(s: string): string {
    seq(|s|, k requires 0 <= k < |s| => LowerChar(s[k]))
  }

  /** Lower-casing keeps the length, turns each ASCII capital into its
      small letter and leaves every other character as it is, so no
      capital is left behind. */
  lemma ToLowerSpec(s: string)
    ensures |ToLower(s)| == |s|
    ensures forall k :: 0 <= k < |s| ==>
              if 'A' <= s[k] <= 'Z' then ToLower(s)[k] as int == s[k] as int + 32
              else ToLower(s)[k] == s[k]
    ensures forall k :: 0 <= k < |s| ==> !('A' <= ToLower(s)[k] <= 'Z')
  {
  }

  /** Lower-casing twice is lower-casing once. */
  lemma ToLowerIdempotent(s: string)
    ensures ToLower(ToLower(s)) == ToLower(s)
  {
    var r := ToLower(s);
    assert forall k :: 0 <= k < |r| ==> LowerChar(r[k]) == r[k];
  }

  /** `needle` stands in `hay` at position `i`. */
  predicate OccursAt(hay: string, needle: string, i: int) {
    0 <= i && i + |needle| <= |hay| && hay[i..i + |needle|] == needle
  }

  /** `hay.includes(needle)`: `needle` is a prefix of `hay` or of one of
      its suffixes. */
  predicate Includes(hay: string, needle: string)
    decreases |hay|
  {
    (|needle| <= |hay| && hay[..|needle|] == needle) ||
    (hay != [] && Includes(hay[1..], needle))
  }

  /** `includes` holds exactly when the needle occurs at some position. */
  lemma {:induction false} IncludesIff(hay: string, needle: string)
    ensures Includes(hay, needle) <==> exists i :: OccursAt(hay, needle, i)
    decreases |hay|
  {
    if Includes(hay, needle) {
      IncludesOccurs(hay, needle);
    }
    if i :| OccursAt(hay, needle, i) {
      OccursIncludes(hay, needle, i);
    }
  }

  lemma {:induction false} IncludesOccurs(hay: string, needle: string)
    requires Includes(hay, needle)
    ensures exists i :: OccursAt(hay, needle, i)
    decreases |hay|
  {
    if |needle| <= |hay| && hay[..|needle|] == needle {
      assert OccursAt(hay, needle, 0);
    } else {
      IncludesOccurs(hay[1..], needle);
      var i :| OccursAt(hay[1..], needle, i);
      assert hay[1..][i..i + |needle|] == hay[i + 1..i + 1 + |needle|];
      assert OccursAt(hay, needle, i + 1);
    }
  }

  lemma {:induction false} OccursIncludes(hay: string, needle: string, i: int)
    requires OccursAt(hay, needle, i)
    ensures Includes(hay, needle)
    decreases i
  {
    if i > 0 {
      assert hay[1..][i - 1..i - 1 + |needle|] == hay[i..i + |needle|];
      OccursIncludes(hay[1..], needle, i - 1);
    }
  }

  /** Every string includes the empty string. */
  lemma IncludesEmpty(hay: string)
    ensures Includes(hay, [])
  {
    assert hay[..0] == [];
  }
}
