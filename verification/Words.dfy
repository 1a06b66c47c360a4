/** Bytes and machine words. */
module Words {

  type Byte = x: nat | x < 256 witness 0

  function U8(x: int): nat {
    x % 0x100
  }

  function U16(x: int): nat {
    x % 0x10000
  }

  function U32(x: int): nat {
    x % 0x1_0000_0000
  }

  ghost predicate AllBytes(s: seq<nat>) {
    forall i :: 0 <= i < |s| ==> s[i] < 256
  }

  function LowByte(v: bv64): bv8 {
    (v & 0xff) as bv8
  }
}
