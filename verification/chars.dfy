/** Character classes shared by the two readers (ASCII only). */
module Chars {

  /** Python's `\s` and `str.strip()` restricted to ASCII: space, \t, \n, \v, \f, \r and \x1c-\x1f. */
  predicate IsSpace(c: char) {
    c == ' ' || c == '\t' || c == '\n' || c == '\r' || c == '\U{0B}' || c == '\U{0C}'
    || c == '\U{1C}' || c == '\U{1D}' || c == '\U{1E}' || c == '\U{1F}'
  }

  predicate IsParen(c: char) {
    c == '(' || c == ')'
  }

  predicate IsDigit(c: char) {
    '0' <= c <= '9'
  }

  predicate IsUpper(c: char) {
    'A' <= c <= 'Z'
  }

  /** A character of the regex class `[^()\s]`, the body of an atom. */
  predicate IsAtomChar(c: char) {
    !IsSpace(c) && !IsParen(c)
  }

  /** A well-formed atom: a non-empty run of atom characters. */
  predicate IsAtom(s: string) {
    s != [] && forall k :: 0 <= k < |s| ==> IsAtomChar(s[k])
  }

  /** Length of the leading run of atom characters (the greedy `[^()\s]+`). */
  function AtomRun(s: string): (n: nat)
    ensures n <= |s|
    ensures forall k :: 0 <= k < n ==> IsAtomChar(s[k])
    ensures n == |s| || !IsAtomChar(s[n])
  {
    if s == [] || !IsAtomChar(s[0]) then 0 else 1 + AtomRun(s[1..])
  }

  /** The run length is determined by where the first non-atom character sits. */
  lemma {:induction false} AtomRunAt(s: string, m: nat)
    requires m <= |s|
    requires forall k :: 0 <= k < m ==> IsAtomChar(s[k])
    requires m == |s| || !IsAtomChar(s[m])
    ensures AtomRun(s) == m
  {
    if m > 0 {
      AtomRunAt(s[1..], m - 1);
    }
  }

  /** The string with every whitespace character removed. */
  function RemoveSpaces(s: string): (r: string)
    ensures |r| <= |s|
    ensures forall k :: 0 <= k < |r| ==> !IsSpace(r[k])
  {
    if s == [] then []
    else (if IsSpace(s[0]) then [] else [s[0]]) + RemoveSpaces(s[1..])
  }

  lemma {:induction false} RemoveSpacesAppend(a: string, b: string)
    ensures RemoveSpaces(a + b) == RemoveSpaces(a) + RemoveSpaces(b)
  {
    if a != [] {
      assert (a + b)[1..] == a[1..] + b;
      RemoveSpacesAppend(a[1..], b);
    } else {
      assert a + b == b;
    }
  }

  lemma {:induction false} RemoveSpacesOfAtom(s: string)
    requires forall k :: 0 <= k < |s| ==> IsAtomChar(s[k])
    ensures RemoveSpaces(s) == s
  {
    if s != [] {
      RemoveSpacesOfAtom(s[1..]);
      assert s == [s[0]] + s[1..];
    }
  }

  /** Concatenation regrouped to the left, one step at a time for long chains. */
  lemma ConcatAssoc<T>(a: seq<T>, b: seq<T>, c: seq<T>)
    ensures a + (b + c) == a + b + c
  {
  }
}

/** Python's failure modes and optional values. */
module Outcomes {

  datatype Option<+T> = None | Some(value: T)

  /** The exceptions the modelled code can raise. */
  datatype PyError = IndexError | TypeError | AssertionError

  datatype Result<+T> = Ok(value: T) | Err(error: PyError)
}
