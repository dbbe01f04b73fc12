/** Memory blocks and the C strings in them. */
module Buffers {
  /** A block as a C string: up to its first NUL. */
  function CString<T(==)>(b: seq<T>, nul: T): (r: seq<T>)
    ensures nul !in r && r <= b
    ensures |r| < |b| ==> b[|r|] == nul
  {
    if b == [] || b[0] == nul then [] else [b[0]] + CString(b[1..], nul)
  }

  lemma {:induction false} CStringOf<T>(text: seq<T>, nul: T, rest: seq<T>)
    requires nul !in text
    ensures CString(text + [nul] + rest, nul) == text
  {
    var b := text + [nul] + rest;
    if text != [] {
      CStringOf(text[1..], nul, rest);
      assert b[0] == text[0] && b[1..] == text[1..] + [nul] + rest;
    }
  }

  lemma {:induction false} WholeCString<T>(b: seq<T>, nul: T)
    requires nul !in b
    ensures CString(b, nul) == b
  {
    if b != [] {
      WholeCString(b[1..], nul);
    }
  }

  /** What a text leaves in a buffer of a capacity: what fits before the NUL. */
  function Stored(text: string, capacity: nat): string
    requires capacity > 0
  {
    (if |text| < capacity then text else text[..capacity - 1]) + ['\0']
  }

  /** A buffer holds all of a text that leaves room for the NUL, and the NUL. */
  lemma {:induction false} StoredFills(text: string, capacity: nat)
    requires capacity > 0
    ensures var s, n := Stored(text, capacity), if |text| < capacity then |text| else capacity - 1;
      |s| == n + 1 && s[..n] == text[..n] && s[n] == '\0'
  {
  }

  /** memcpy */
  method CopyTo<T>(buffer: array<T>, at: nat, data: seq<T>)
    requires at + |data| <= buffer.Length
    modifies buffer
    ensures buffer[..at + |data|] == old(buffer[..at]) + data
    ensures buffer[at + |data|..] == old(buffer[at + |data|..])
  {
    var i := 0;
    while i < |data|
      invariant 0 <= i <= |data|
      invariant forall k | 0 <= k < at :: buffer[k] == old(buffer[k])
      invariant forall k | 0 <= k < i :: buffer[at + k] == data[k]
      invariant forall k | at + i <= k < buffer.Length :: buffer[k] == old(buffer[k])
    {
      buffer[at + i] := data[i];
      i := i + 1;
    }
  }
}
