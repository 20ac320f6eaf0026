/** Small vocabulary shared by every part of the model. */
module Basics {

  datatype Option<+T> = None | Some(value: T)

  function Min(a: int, b: int): int {
    if a < b then a else b
  }

  function Max(a: int, b: int): int {
    if a < b then b else a
  }

  /** `CharacterSet.whitespaces`: Unicode category Zs plus the tabulation character. */
  predicate IsBlank(c: char) {
    c == '\t' || c == ' ' || c == '\U{00A0}' || c == '\U{1680}' ||
    '\U{2000}' <= c <= '\U{200A}' || c == '\U{202F}' || c == '\U{205F}' || c == '\U{3000}'
  }

  /** `CharacterSet.whitespacesAndNewlines`. */
  predicate IsBlankOrNewline(c: char) {
    IsBlank(c) || '\U{000A}' <= c <= '\U{000D}' || c == '\U{0085}' || c == '\U{2028}' || c == '\U{2029}'
  }

  function TrimLeft(s: string, blank: char -> bool): (r: string)
    ensures r != [] ==> !blank(r[0])
    ensures |r| <= |s| && r == s[|s| - |r|..]
    ensures forall k :: 0 <= k < |s| - |r| ==> blank(s[k])
  {
    if s != [] && blank(s[0]) then TrimLeft(s[1..], blank) else s
  }

  function TrimRight(s: string, blank: char -> bool): (r: string)
    ensures r != [] ==> !blank(r[|r| - 1])
    ensures r <= s
    ensures forall k :: |r| <= k < |s| ==> blank(s[k])
  {
    if s != [] && blank(s[|s| - 1]) then TrimRight(s[..|s| - 1], blank) else s
  }

  /** `trimmingCharacters(in:)`. */
  function Trim(s: string, blank: char -> bool): (r: string)
    ensures r != [] ==> !blank(r[0]) && !blank(r[|r| - 1])
  {
    TrimRight(TrimLeft(s, blank), blank)
  }

  /** Concatenation of a list of sequences. */
  function Concat<T>(parts: seq<seq<T>>): seq<T> {
    if parts == [] then [] else Concat(parts[..|parts| - 1]) + parts[|parts| - 1]
  }

  lemma {:induction false} ConcatAppend<T>(a: seq<seq<T>>, b: seq<seq<T>>)
    ensures Concat(a + b) == Concat(a) + Concat(b)
  {
    if b == [] {
      assert a + b == a;
    } else {
      ConcatAppend(a, b[..|b| - 1]);
      assert (a + b)[..|a + b| - 1] == a + b[..|b| - 1];
    }
  }

  lemma ConcatSnoc<T>(a: seq<seq<T>>, x: seq<T>)
    ensures Concat(a + [x]) == Concat(a) + x
  {
    assert (a + [x])[..|a|] == a;
  }

  /** Decimal digits of a natural number, as string interpolation prints them. */
  function Digits(n: nat): (r: string)
    ensures r != [] && forall k :: 0 <= k < |r| ==> '0' <= r[k] <= '9'
  {
    (if n < 10 then [] else Digits(n / 10)) + ["0123456789"[n % 10]]
  }

  function Decimal(n: int): string {
    if n < 0 then "-" + Digits(-n) else Digits(n)
  }
}
