/** The tables of Keccak-f[1600], as the sources list them and as FIPS 202 generates them. */
module KeccakConstants {
  import opened KeccakSpec

  /** One table serves the three sources: each lists these values in this order. */
  const ROUND_CONSTANTS: seq<bv64> := [
    0x0000000000000001, 0x0000000000008082, 0x800000000000808A, 0x8000000080008000,
    0x000000000000808B, 0x0000000080000001, 0x8000000080008081, 0x8000000000008009,
    0x000000000000008A, 0x0000000000000088, 0x0000000080008009, 0x000000008000000A,
    0x000000008000808B, 0x800000000000008B, 0x8000000000008089, 0x8000000000008003,
    0x8000000000008002, 0x8000000000000080, 0x000000000000800A, 0x800000008000000A,
    0x8000000080008081, 0x8000000000008080, 0x0000000080000001, 0x8000000080008008]

  // ---------------------------------------------------------------- round constants, section 3.2.5

  /** One step of the linear feedback shift register of Algorithm 5; bit 0 is its output. */
  function Clock(r: bv8): bv8 {
    if r & 0x80 == 0 then r << 1 else (r << 1) ^ 0x71
  }

  function Clock7(r: bv8): bv8 {
    Clock(Clock(Clock(Clock(Clock(Clock(Clock(r)))))))
  }

  function Bit(r: bv8): bv64 {
    (r & 1) as bv64
  }

  /** Output bit j of a round is bit 2^j - 1 of its constant. */
  function RoundConstant(r: bv8): bv64 {
    var r1 := Clock(r);
    var r2 := Clock(r1);
    var r3 := Clock(r2);
    var r4 := Clock(r3);
    var r5 := Clock(r4);
    var r6 := Clock(r5);
    Bit(r) | (Bit(r1) << 1) | (Bit(r2) << 3) | (Bit(r3) << 7) | (Bit(r4) << 15) | (Bit(r5) << 31) | (Bit(r6) << 63)
  }

  /** The register at the start of each round: seven of its output bits are used in one. */
  const REGISTERS: seq<bv8> := [
    1, 128, 216, 26, 223, 9, 53, 79, 202, 112, 65, 236, 213, 205, 99, 171, 170, 42, 242, 232, 55, 62, 11, 68]

  /** The table has the constant of the register, and the register of the next round is seven clocks on. */
  predicate Generated(round: nat)
    requires round < 24
  {
    && ROUND_CONSTANTS[round] == RoundConstant(REGISTERS[round])
    && (round < 23 ==> REGISTERS[round + 1] == Clock7(REGISTERS[round]))
  }

  lemma Generated0(round: nat)
    requires 0 <= round < 6
    ensures Generated(round)
  {
  }

  lemma Generated6(round: nat)
    requires 6 <= round < 12
    ensures Generated(round)
  {
  }

  lemma Generated12(round: nat)
    requires 12 <= round < 18
    ensures Generated(round)
  {
  }

  lemma Generated18(round: nat)
    requires 18 <= round < 24
    ensures Generated(round)
  {
  }

  /** The table of the sources is the one that section 3.2.5 generates, from the register 1 on. */
  lemma RoundConstantsAreGenerated(round: nat)
    requires round < 24
    ensures |ROUND_CONSTANTS| == |REGISTERS| == 24 && REGISTERS[0] == 1 && Generated(round)
  {
    if round < 6 {
      Generated0(round);
    } else if round < 12 {
      Generated6(round);
    } else if round < 18 {
      Generated12(round);
    } else {
      Generated18(round);
    }
  }
}
