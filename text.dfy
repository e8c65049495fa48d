/**
 * String helpers used by the task list: the `trim` applied to the add input and
 * the `toUpperCase` applied to task text, both restricted to what the model needs.
 */
module Text {

  /** The characters `String.prototype.trim` strips: ECMAScript WhiteSpace and LineTerminator. */
  predicate IsSpace(c: char) {
    c == '\t' || c == '\n' || c == '\U{B}' || c == '\U{C}' || c == '\r' || c == ' '
    || c == '\U{A0}' || c == '\U{1680}' || ('\U{2000}' <= c <= '\U{200A}')
    || c == '\U{2028}' || c == '\U{2029}' || c == '\U{202F}' || c == '\U{205F}'
    || c == '\U{3000}' || c == '\U{FEFF}'
  }

  predicate AllSpace(s: string) {
    forall i :: 0 <= i < |s| ==> IsSpace(s[i])
  }

  /** `s` has no surrounding white space: it is empty or starts and ends with a non-space. */
  predicate Tight(s: string) {
    s == [] || (!IsSpace(s[0]) && !IsSpace(s[|s| - 1]))
  }

  /** Drops the leading white space: what remains is a suffix of `s` that does not start with a space. */
  function TrimStart(s: string): (r: string)
    ensures |r| <= |s| && r == s[|s| - |r|..]
    ensures AllSpace(s[..|s| - |r|])
    ensures r == [] || !IsSpace(r[0])
  {
    if s != [] && IsSpace(s[0]) then TrimStart(s[1..]) else s
  }

  /** Drops the trailing white space: what remains is a prefix of `s` that does not end with a space. */
  function TrimEnd(s: string): (r: string)
    ensures |r| <= |s| && r == s[..|r|]
    ensures AllSpace(s[|r|..])
    ensures r == [] || !IsSpace(r[|r| - 1])
  {
    if s != [] && IsSpace(s[|s| - 1]) then TrimEnd(s[..|s| - 1]) else s
  }

  /** `String.prototype.trim`. */
  function Trim(s: string): (r: string)
    ensures Tight(r)
    ensures r == [] <==> AllSpace(s)
    ensures |r| <= |s|
  {
    var t := TrimStart(s);
    assert t == [] ==> AllSpace(s) by {
      if t == [] { assert s[..|s|] == s; }
    }
    assert t != [] ==> !IsSpace(s[|s| - |t|]);
    var r := TrimEnd(t);
    assert t != [] ==> r != [] by {
      if t != [] && !IsSpace(t[|t| - 1]) { assert r == t; }
    }
    assert r != [] ==> r[0] == t[0];
    r
  }

  /** Trimming `p + m + q` gives `m` whenever `p` and `q` are white space and `m` is tight:
      this characterises `Trim` independently of how it is computed. */
  lemma {:induction false} TrimOfPadded(p: string, m: string, q: string)
    requires AllSpace(p) && AllSpace(q) && Tight(m)
    ensures Trim(p + m + q) == m
  {
    var s := p + m + q;
    if m == [] {
      forall i | 0 <= i < |s| ensures IsSpace(s[i]) {
        if i < |p| { assert s[i] == p[i]; } else { assert s[i] == q[i - |p|]; }
      }
    } else {
      var rest := m + q;
      assert rest[0] == m[0];
      assert s == p + rest;
      TrimStartOfPadded(p, rest);
      TrimEndOfPadded(m, q);
      assert Trim(s) == TrimEnd(TrimStart(s));
    }
  }

  /** Trimming leaves a tight string as it is. */
  lemma TrimOfTight(s: string)
    requires Tight(s)
    ensures Trim(s) == s
  {
  }

  lemma {:induction false} TrimStartOfPadded(p: string, rest: string)
    requires AllSpace(p) && rest != [] && !IsSpace(rest[0])
    ensures TrimStart(p + rest) == rest
  {
    if p != [] {
      assert (p + rest)[1..] == p[1..] + rest;
      TrimStartOfPadded(p[1..], rest);
    }
  }

  lemma {:induction false} TrimEndOfPadded(m: string, q: string)
    requires AllSpace(q) && m != [] && !IsSpace(m[|m| - 1])
    ensures TrimEnd(m + q) == m
  {
    if q != [] {
      assert (m + q)[..|m + q| - 1] == m + q[..|q| - 1];
      TrimEndOfPadded(m, q[..|q| - 1]);
    } else {
      assert m + q == m;
    }
  }

  /** Trimming twice is trimming once. */
  lemma TrimIdempotent(s: string)
    ensures Trim(Trim(s)) == Trim(s)
  {
  }

  predicate IsLower(c: char) {
    'a' <= c <= 'z'
  }

  /** `toUpperCase` on one character, for the ASCII letters. */
  function UpperChar(c: char): (u: char)
    ensures !IsLower(u)
    ensures IsLower(c) ==> u as int == c as int - 32
    ensures !IsLower(c) ==> u == c
  {
    if IsLower(c) then (c as int - 32) as char else c
  }

  /** No character of `s` is a lower-case letter. */
  predicate NoLower(s: string) {
    forall i :: 0 <= i < |s| ==> !IsLower(s[i])
  }

  /** `String.prototype.toUpperCase`, restricted to the ASCII letters. */
  function Upper(s: string): (r: string)
    ensures |r| == |s| && NoLower(r)
    ensures forall i :: 0 <= i < |s| ==> r[i] == UpperChar(s[i])
  {
    seq(|s|, i requires 0 <= i < |s| => UpperChar(s[i]))
  }

  /** Upper-casing leaves a string alone exactly when it has no lower-case letter. */
  lemma UpperFixedIff(s: string)
    ensures Upper(s) == s <==> NoLower(s)
  {
  }

  /** Upper-casing twice is upper-casing once. */
  lemma UpperIdempotent(s: string)
    ensures Upper(Upper(s)) == Upper(s)
  {
  }
}
