/** The byte-level view of C strings that ringBuffer.c relies on through <string.h>:
    a C string stored in a byte array is the run of bytes before its first NUL. */
module CString {

  /** An unsigned 8-bit value (uint8_t, and the plain `char` bytes the ring stores). */
  type Byte = x: int | 0 <= x < 0x100

  /** An unsigned 16-bit value (uint16_t). */
  type U16 = x: int | 0 <= x < 0x1_0000

  const Nul: Byte := 0
  const CR: Byte := 13  // '\r'
  const LF: Byte := 10  // '\n'

  datatype Option<T> = None | Some(value: T)

  function Min(a: int, b: int): int { if a <= b then a else b }

  /** `n` zero bytes. */
  function Zeros(n: nat): seq<Byte> { seq(n, _ => 0) }

  /** strlen of a byte array that holds a terminator: the index of its first NUL. */
  function StrLen(s: seq<Byte>): (k: nat)
    requires Nul in s
    ensures k < |s| && s[k] == Nul
    ensures forall i :: 0 <= i < k ==> s[i] != Nul
  {
    if s[0] == Nul then 0
    else
      assert Nul in s[1..] by { var j :| 0 <= j < |s| && s[j] == Nul; assert s[1..][j - 1] == Nul; }
      1 + StrLen(s[1..])
  }

  /** The C string held in a byte array: the bytes before the first NUL. */
  function CStr(s: seq<Byte>): (text: seq<Byte>)
    requires Nul in s
    ensures |text| < |s| && text == s[..|text|] && s[|text|] == Nul
    ensures Nul !in text
  {
    s[..StrLen(s)]
  }

  /** `needle` occurs in `hay` starting at index `j`. */
  predicate OccursAt(hay: seq<Byte>, needle: seq<Byte>, j: nat) {
    j + |needle| <= |hay| && hay[j..j + |needle|] == needle
  }

  /** strstr (ISO C11 section 7.24.5.7): the index of the leftmost occurrence of
      `needle` in `hay`, or None when there is none. An empty needle is found at 0.
      StrStrSpec states that this is the leftmost occurrence. */
  function StrStr(hay: seq<Byte>, needle: seq<Byte>): (r: Option<nat>)
    ensures r.Some? ==> r.value + |needle| <= |hay|
  {
    SearchFrom(hay, needle, 0)
  }

  /** The leftmost occurrence at or after `from`. */
  function SearchFrom(hay: seq<Byte>, needle: seq<Byte>, from: nat): (r: Option<nat>)
    decreases |hay| - from
    ensures r.Some? ==> from <= r.value && r.value + |needle| <= |hay|
  {
    if from + |needle| > |hay| then None
    else if hay[from..from + |needle|] == needle then Some(from)
    else SearchFrom(hay, needle, from + 1)
  }

  /** SearchFrom reports an occurrence, none lies between `from` and it, and
      None means there is none at or after `from`. */
  lemma {:induction false} SearchFromSpec(hay: seq<Byte>, needle: seq<Byte>, from: nat)
    ensures var r := SearchFrom(hay, needle, from);
            && (r.Some? ==> OccursAt(hay, needle, r.value))
            && (r.Some? ==> forall j :: from <= j < r.value ==> !OccursAt(hay, needle, j))
            && (r.None? ==> forall j: nat :: from <= j ==> !OccursAt(hay, needle, j))
    decreases |hay| - from
  {
    if from + |needle| <= |hay| && hay[from..from + |needle|] != needle {
      SearchFromSpec(hay, needle, from + 1);
    }
  }

  /** StrStr finds the leftmost occurrence, and None means `needle` occurs nowhere. */
  lemma StrStrSpec(hay: seq<Byte>, needle: seq<Byte>)
    ensures var r := StrStr(hay, needle);
            && (r.Some? ==> OccursAt(hay, needle, r.value))
            && (r.Some? ==> forall j :: 0 <= j < r.value ==> !OccursAt(hay, needle, j))
            && (r.None? ==> forall j: nat :: !OccursAt(hay, needle, j))
  {
    SearchFromSpec(hay, needle, 0);
  }
}
