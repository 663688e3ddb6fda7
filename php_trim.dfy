/** PHP's `trim` with its default character list, as applied to every request
    field before it is checked or stored. */
module PhpTrim {

  /** The characters `trim` strips when no list is given: space, tab, line feed,
      carriage return, NUL and vertical tab. */
  predicate IsTrimChar(c: char) {
    c == ' ' || c == '\t' || c == '\n' || c == '\r' || c == '\0' || c == '\U{000B}'
  }

  predicate AllTrimChars(s: string) {
    forall k :: 0 <= k < |s| ==> IsTrimChar(s[k])
  }

  /** Neither end of `s` is a strippable character. */
  predicate IsTrimmed(s: string) {
    s == [] || (!IsTrimChar(s[0]) && !IsTrimChar(s[|s| - 1]))
  }

  /** `trim($s)`: strips strippable characters from both ends, so that the
      result has none at either end. */
  function Trim(s: string): (r: string)
    ensures |r| <= |s|
    ensures IsTrimmed(r)
  {
    if s != [] && IsTrimChar(s[0]) then Trim(s[1..])
    else if s != [] && IsTrimChar(s[|s| - 1]) then Trim(s[..|s| - 1])
    else s
  }

  /** A field is blank after trimming exactly when it consists of strippable
      characters only. */
  lemma {:induction false} BlankIffAllTrimChars(s: string)
    ensures Trim(s) == [] <==> AllTrimChars(s)
  {
    if s != [] && IsTrimChar(s[0]) {
      BlankIffAllTrimChars(s[1..]);
      assert AllTrimChars(s) <==> AllTrimChars(s[1..]) by {
        assert forall k :: 1 <= k < |s| ==> s[k] == s[1..][k - 1];
      }
    } else if s != [] && IsTrimChar(s[|s| - 1]) {
      BlankIffAllTrimChars(s[..|s| - 1]);
    }
  }

  /** An independent characterisation of `trim`: whatever strippable padding
      surrounds a core without strippable ends, `trim` returns exactly that
      core. */
  lemma {:induction false} TrimPadded(p: string, m: string, q: string)
    requires AllTrimChars(p) && AllTrimChars(q) && IsTrimmed(m)
    ensures Trim(p + m + q) == m
    decreases |p| + |q|
  {
    var s := p + m + q;
    if p != [] {
      assert s[0] == p[0];
      assert s[1..] == p[1..] + m + q;
      TrimPadded(p[1..], m, q);
    } else if m != [] {
      assert s[0] == m[0];
      if q != [] {
        assert s[|s| - 1] == q[|q| - 1];
        assert s[..|s| - 1] == p + m + q[..|q| - 1];
        TrimPadded(p, m, q[..|q| - 1]);
      } else {
        assert s == m;
      }
    } else if q != [] {
      assert s == q && s[0] == q[0];
      assert s[1..] == p + m + q[1..];
      TrimPadded(p, m, q[1..]);
    } else {
      assert s == [];
    }
  }

  /** A value without strippable ends is its own trim. */
  lemma TrimKeepsTrimmed(s: string)
    requires IsTrimmed(s)
    ensures Trim(s) == s
  {
    assert [] + s + [] == s;
    TrimPadded([], s, []);
  }
}
