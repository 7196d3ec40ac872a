/**
 * C strings. A `const char *` key is the memory from the pointer up to and
 * including a NUL byte; the filters hash the `strlen(item)` bytes before the
 * first NUL.
 */
module CStrings {
  import opened HashUtils

  /** `strlen`: the position of the first NUL. */
  function StrLen(mem: seq<Byte>): (n: nat)
    requires 0 in mem
    ensures n < |mem| && mem[n] == 0
    ensures forall j :: 0 <= j < n ==> mem[j] != 0
    decreases |mem|
  {
    if mem[0] == 0 then 0 else 1 + StrLen(mem[1..])
  }

  /** The key a C filter hashes: the bytes before the first NUL. */
  function Key(mem: seq<Byte>): (key: seq<Byte>)
    requires 0 in mem
    ensures 0 !in key && |key| < |mem|
    ensures mem[..|key|] == key && mem[|key|] == 0
  {
    mem[..StrLen(mem)]
  }

  /** Whatever follows the first NUL is not part of the key. */
  lemma KeyIgnoresTail(key: seq<Byte>, tail: seq<Byte>)
    requires 0 !in key
    ensures Key(key + [0] + tail) == key
  {
    var mem := key + [0] + tail;
    assert mem[|key|] == 0;
  }
}
