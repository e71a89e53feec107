/**
 * C strings: the bytes `CStr::from_ptr(p).to_bytes()` sees are those before
 * the first NUL of the memory at `p`. The memory must hold a NUL; nothing in
 * the binding checks it, so every caller here requires it.
 */
module CStr {
  import opened Gp

  /** Position of the first NUL. */
  function NulIndex(mem: seq<Byte>): (i: nat)
    requires 0 in mem
    ensures i < |mem| && mem[i] == 0
    ensures forall j :: 0 <= j < i ==> mem[j] != 0
  {
    if mem[0] == 0 then 0 else 1 + NulIndex(mem[1..])
  }

  /** The bytes of the C string stored at the start of `mem`. */
  function UntilNul(mem: seq<Byte>): (s: seq<Byte>)
    requires 0 in mem
    ensures |s| < |mem| && mem[|s|] == 0
    ensures s == mem[..|s|] && 0 !in s
  {
    mem[..NulIndex(mem)]
  }

  /** Writing a NUL-free string followed by a terminator and anything reads back the string. */
  lemma UntilNulOfTerminated(s: seq<Byte>, rest: seq<Byte>)
    requires 0 !in s
    ensures 0 in s + [0] + rest
    ensures UntilNul(s + [0] + rest) == s
  {
    assert (s + [0] + rest)[|s|] == 0;
  }
}
