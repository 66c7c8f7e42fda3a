/** The subject string of a match and the character macros over it: GET_CHAR, PEEK_CHAR,
    PREV_CHAR, PEEK_PREV_CHAR. Positions are unit indices. */
module MatchInput {
  type unit = u: int | 0 <= u < 0x10000

  predicate IsHi(u: int) { 0xD800 <= u < 0xDC00 }

  predicate IsLo(u: int) { 0xDC00 <= u < 0xE000 }

  function FromSurrogate(hi: int, lo: int): int {
    0x10000 + 0x400 * (hi - 0xD800) + (lo - 0xDC00)
  }

  /** `utf16` is buffer type 2: surrogate pairs count as one character. Types 0 and 1 read
      single units and differ only in unit width. */
  datatype Input = Input(units: seq<unit>, utf16: bool) {
    predicate Pair(p: nat) {
      utf16 && p + 1 < |units| && IsHi(units[p]) && IsLo(units[p + 1])
    }

    function CharAt(p: nat): (c: int)
      requires p < |units|
      ensures 0 <= c < 0x110000
    {
      if Pair(p) then FromSurrogate(units[p], units[p + 1]) else units[p]
    }

    function Next(p: nat): (q: nat)
      requires p < |units|
      ensures p < q <= |units|
    {
      if Pair(p) then p + 2 else p + 1
    }

    function Prev(p: nat): (q: nat)
      requires 0 < p <= |units|
      ensures q < p
    {
      if p >= 2 && Pair(p - 2) then p - 2 else p - 1
    }

    /** Not between the two halves of a surrogate pair. */
    predicate Boundary(p: nat) {
      p <= |units| && !(0 < p && Pair(p - 1))
    }

    /** Going back one character undoes going forward one. */
    lemma PrevNext(p: nat)
      requires p < |units| && Boundary(p)
      ensures Boundary(Next(p)) && Prev(Next(p)) == p
    {
    }

    lemma NextPrev(p: nat)
      requires 0 < p && Boundary(p)
      ensures Boundary(Prev(p)) && Next(Prev(p)) == p
    {
    }

    /** `n` characters forward; None when the input ends first. */
    function NextN(p: nat, n: nat): (r: int)
      requires p <= |units|
      ensures r == -1 || p <= r <= |units|
      decreases n
    {
      if n == 0 then p else if p == |units| then -1 else NextN(Next(p), n - 1)
    }

    /** `n` characters back, as the give-back step does; -1 when it would pass the start. */
    function PrevN(p: nat, n: nat): (r: int)
      requires p <= |units|
      ensures r == -1 || 0 <= r <= p
    {
      if n == 0 then p else if p == 0 then -1 else PrevN(Prev(p), n - 1)
    }
  }
}
