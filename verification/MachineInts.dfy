/** 64-bit unsigned arithmetic. */
module MachineInts {

  const U64: nat := 0x1_0000_0000_0000_0000

  lemma AddMod(a: nat, b: nat)
    ensures (a % U64 + b) % U64 == (a + b) % U64
    ensures (a % U64 + b % U64) % U64 == (a + b) % U64
  {
    assert a == a / U64 * U64 + a % U64;
    assert b == b / U64 * U64 + b % U64;
    assert a + b == (a / U64 + b / U64) * U64 + (a % U64 + b % U64);
  }
}
