/** Removing the white space around a string, as the handlers do with the keys they are given. */
module Trimming {

  /** Unicode White_Space, which Rust's `trim` removes. */
  predicate IsWhitespace(c: char) {
    var u := c as int;
    || 0x09 <= u <= 0x0D || u == 0x20 || u == 0x85 || u == 0xA0 || u == 0x1680
    || 0x2000 <= u <= 0x200A || u == 0x2028 || u == 0x2029 || u == 0x202F || u == 0x205F || u == 0x3000
  }

  const WHITE_SPACE: set<int> :=
    {0x09, 0x0A, 0x0B, 0x0C, 0x0D, 0x20, 0x85, 0xA0, 0x1680, 0x2000, 0x2001, 0x2002, 0x2003, 0x2004, 0x2005, 0x2006,
     0x2007, 0x2008, 0x2009, 0x200A, 0x2028, 0x2029, 0x202F, 0x205F, 0x3000}

  /** The 25 code points of the property, one by one. */
  lemma WhitespaceListed(c: char)
    ensures IsWhitespace(c) <==> c as int in WHITE_SPACE
  {
  }

  function TrimStart(s: string): string {
    if s != [] && IsWhitespace(s[0]) then TrimStart(s[1..]) else s
  }

  function TrimEnd(s: string): string {
    if s != [] && IsWhitespace(s[|s| - 1]) then TrimEnd(s[..|s| - 1]) else s
  }

  function Trim(s: string): string {
    TrimEnd(TrimStart(s))
  }

  /** Nothing but white space. */
  predicate Blank(s: string) {
    forall i | 0 <= i < |s| :: IsWhitespace(s[i])
  }

  /** Not empty, and neither beginning nor ending in white space. */
  predicate Bare(s: string) {
    s != [] && !IsWhitespace(s[0]) && !IsWhitespace(s[|s| - 1])
  }

  /** `core` is what is left of `s` between white space, and nothing if `s` is blank. */
  ghost predicate IsCore(s: string, core: string) {
    && (Bare(core) || core == [])
    && exists a: string, b: string :: Blank(a) && Blank(b) && s == a + core + b
  }

  lemma {:induction false} TrimStartStrips(s: string) returns (a: string)
    ensures Blank(a) && s == a + TrimStart(s) && (TrimStart(s) != [] ==> !IsWhitespace(TrimStart(s)[0]))
  {
    a := [];
    if s != [] && IsWhitespace(s[0]) {
      var rest := TrimStartStrips(s[1..]);
      a := [s[0]] + rest;
      assert s == [s[0]] + s[1..];
    }
  }

  lemma {:induction false} TrimEndStrips(s: string) returns (b: string)
    ensures Blank(b) && s == TrimEnd(s) + b && (TrimEnd(s) != [] ==> !IsWhitespace(TrimEnd(s)[|TrimEnd(s)| - 1]))
  {
    b := [];
    if s != [] && IsWhitespace(s[|s| - 1]) {
      var rest := TrimEndStrips(s[..|s| - 1]);
      b := rest + [s[|s| - 1]];
      assert s == s[..|s| - 1] + [s[|s| - 1]];
    }
  }

  /** Trimming takes away white space at both ends, all of it, and nothing else. */
  lemma TrimIsCore(s: string)
    ensures IsCore(s, Trim(s))
  {
    var a := TrimStartStrips(s);
    var b := TrimEndStrips(TrimStart(s));
    assert s == a + Trim(s) + b;
    if Trim(s) != [] {
      assert TrimStart(s)[0] == Trim(s)[0];
    }
  }

  /** A string has only one core. */
  lemma CoreIsUnique(s: string, core: string, core': string)
    requires IsCore(s, core) && IsCore(s, core')
    ensures core == core'
  {
    var a: string, b: string :| Blank(a) && Blank(b) && s == a + core + b;
    var a': string, b': string :| Blank(a') && Blank(b') && s == a' + core' + b';
    CoreNotShorter(a, core, b, a', core', b');
    CoreNotShorter(a', core', b', a, core, b);
    assert core == s[|a|..|a| + |core|] && core' == s[|a'|..|a'| + |core'|];
  }

  lemma CoreNotShorter(a: string, core: string, b: string, a': string, core': string, b': string)
    requires Blank(a) && Blank(b) && Blank(a') && Blank(b') && a + core + b == a' + core' + b'
    requires Bare(core) || core == []
    ensures core != [] ==> core' != [] && |a'| <= |a| && |b'| <= |b|
  {
    var s := a + core + b;
    if core != [] {
      assert s[|a|] == core[0] && s[|a| + |core| - 1] == core[|core| - 1];
      assert forall i | 0 <= i < |a'| :: s[i] == a'[i];
      assert forall i | 0 <= i < |b'| :: s[|s| - |b'| + i] == b'[i];
    }
  }

  /** A blank string has the empty core. */
  lemma BlankIffEmptyCore(s: string, core: string)
    requires IsCore(s, core)
    ensures core == [] <==> Blank(s)
  {
    var a: string, b: string :| Blank(a) && Blank(b) && s == a + core + b;
    if core == [] {
      assert forall i | 0 <= i < |s| :: s[i] == if i < |a| then a[i] else b[i - |a|];
    } else {
      assert s[|a|] == core[0];
    }
  }
}
