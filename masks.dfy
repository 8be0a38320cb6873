/** The CIDR translation table `subnet_masks` and its lookup `convert_cidr`. */
module Masks {
  import opened Wrappers
  import opened Decimal

  /** The 25 dotted-decimal masks the converter knows, with their prefix-length suffixes. */
  const SubnetMasks: map<string, string> := map[
    "255.255.255.255" := "/32",
    "255.255.255.254" := "/31",
    "255.255.255.252" := "/30",
    "255.255.255.248" := "/29",
    "255.255.255.240" := "/28",
    "255.255.255.224" := "/27",
    "255.255.255.192" := "/26",
    "255.255.255.128" := "/25",
    "255.255.255.0" := "/24",
    "255.255.254.0" := "/23",
    "255.255.252.0" := "/22",
    "255.255.248.0" := "/21",
    "255.255.240.0" := "/20",
    "255.255.224.0" := "/19",
    "255.255.192.0" := "/18",
    "255.255.128.0" := "/17",
    "255.255.0.0" := "/16",
    "255.254.0.0" := "/15",
    "255.252.0.0" := "/14",
    "255.248.0.0" := "/13",
    "255.240.0.0" := "/12",
    "255.224.0.0" := "/11",
    "255.192.0.0" := "/10",
    "255.128.0.0" := "/9",
    "255.0.0.0" := "/8"
  ]

  function Pow2(k: nat): (p: nat)
    ensures p >= 1
  {
    if k == 0 then 1 else 2 * Pow2(k - 1)
  }

  /** The value of an octet whose `bits` high-order bits are one and whose other bits are zero:
      the sum of the bit values 2^7, 2^6, ..., 2^(8 - bits). */
  function OnesOctet(bits: nat): nat
    requires bits <= 8
  {
    if bits == 0 then 0 else OnesOctet(bits - 1) + Pow2(8 - bits)
  }

  /** `OnesOctet(bits)` is `256 - 2^(8 - bits)`, i.e. `bits` ones followed by `8 - bits` zeros. */
  lemma {:induction false} OnesOctetValue(bits: nat)
    requires bits <= 8
    ensures OnesOctet(bits) + Pow2(8 - bits) == 256
  {
    if bits > 0 {
      OnesOctetValue(bits - 1);
    }
  }

  /** The numeral of the octet with `bits` leading one-bits (`bits` is clamped to 0..8). */
  function OctetText(bits: int): string
  {
    if bits <= 0 then "0" else if bits == 1 then "128" else if bits == 2 then "192"
    else if bits == 3 then "224" else if bits == 4 then "240" else if bits == 5 then "248"
    else if bits == 6 then "252" else if bits == 7 then "254" else "255"
  }

  /** `OctetText` renders `OnesOctet` in decimal, as `str(int)` does. */
  lemma OctetTextIsNumeral(bits: nat)
    requires bits <= 8
    ensures OctetText(bits) == NatToString(OnesOctet(bits))
  {
    if bits <= 2 { OctetsUpTo2(bits); }
    else if bits <= 4 { Octets3To4(bits); }
    else if bits <= 6 { Octets5To6(bits); }
    else { Octets7To8(bits); }
  }

  // The four helpers below evaluate the numerals of a few octets each, which keeps every proof small.
  lemma OctetsUpTo2(bits: nat)
    requires 0 <= bits <= 2
    ensures OctetText(bits) == NatToString(OnesOctet(bits))
  {
    if bits == 0 { assert OnesOctet(0) == 0; assert NatToString(0) == "0"; }
    else if bits == 1 { assert OnesOctet(1) == 128; assert NatToString(128) == "128"; }
    else { assert OnesOctet(2) == 192; assert NatToString(192) == "192"; }
  }

  lemma Octets3To4(bits: nat)
    requires 3 <= bits <= 4
    ensures OctetText(bits) == NatToString(OnesOctet(bits))
  {
    if bits == 3 { assert OnesOctet(3) == 224; assert NatToString(224) == "224"; }
    else { assert OnesOctet(4) == 240; assert NatToString(240) == "240"; }
  }

  lemma Octets5To6(bits: nat)
    requires 5 <= bits <= 6
    ensures OctetText(bits) == NatToString(OnesOctet(bits))
  {
    if bits == 5 { assert OnesOctet(5) == 248; assert NatToString(248) == "248"; }
    else { assert OnesOctet(6) == 252; assert NatToString(252) == "252"; }
  }

  lemma Octets7To8(bits: nat)
    requires 7 <= bits <= 8
    ensures OctetText(bits) == NatToString(OnesOctet(bits))
  {
    if bits == 7 { assert OnesOctet(7) == 254; assert NatToString(254) == "254"; }
    else { assert OnesOctet(8) == 255; assert NatToString(255) == "255"; }
  }

  /** Reference definition: the dotted-decimal netmask whose first `n` bits are one. */
  function MaskOfLength(n: nat): string
  {
    OctetText(n) + "." + OctetText(n - 8) + "." + OctetText(n - 16) + "." + OctetText(n - 24)
  }

  /** The contiguous netmasks of prefix length 8 to 32. */
  function PrefixMasks(): set<string>
  {
    set n: nat | 8 <= n <= 32 :: MaskOfLength(n)
  }

  /** `convert_cidr(mask)` on an object whose `subnet_masks` is `subnetMasks`: `None` stands for
      the `KeyError` a mask outside the dictionary raises. */
  function Lookup(subnetMasks: map<string, string>, mask: string): Option<string>
  {
    if mask in subnetMasks then Some(subnetMasks[mask]) else None
  }

  /** `convert_cidr(mask)` with the dictionary the constructor installs: defined on exactly the
      25 contiguous masks, each giving its prefix length. */
  function ConvertCidr(mask: string): (r: Option<string>)
    ensures r.Some? <==> mask in PrefixMasks()
    ensures forall n: nat :: 8 <= n <= 32 && mask == MaskOfLength(n) ==> r == Some("/" + NatToString(n))
  {
    TableIsPrefixMasks();
    EveryPrefixLengthInTable();
    Lookup(SubnetMasks, mask)
  }

  /** Every prefix length from 8 to 32 has its mask in the table, mapped to `"/" + n`. */
  lemma EveryPrefixLengthInTable()
    ensures forall n: nat :: 8 <= n <= 32 ==>
      MaskOfLength(n) in SubnetMasks && SubnetMasks[MaskOfLength(n)] == "/" + NatToString(n)
  {
    forall n: nat | 8 <= n <= 32
      ensures MaskOfLength(n) in SubnetMasks && SubnetMasks[MaskOfLength(n)] == "/" + NatToString(n)
    {
      TableEntry(n);
    }
  }

  /** The mask of prefix length `n` is in the table and maps to `"/" + n`. */
  lemma TableEntry(n: nat)
    requires 8 <= n <= 32
    ensures MaskOfLength(n) in SubnetMasks
    ensures SubnetMasks[MaskOfLength(n)] == "/" + NatToString(n)
  {
    if n == 8 { Entry8(n); }
    else if n == 9 { Entry9(n); }
    else if n == 10 { Entry10(n); }
    else if n == 11 { Entry11(n); }
    else if n == 12 { Entry12(n); }
    else if n == 13 { Entry13(n); }
    else if n == 14 { Entry14(n); }
    else if n == 15 { Entry15(n); }
    else if n == 16 { Entry16(n); }
    else if n == 17 { Entry17(n); }
    else if n == 18 { Entry18(n); }
    else if n == 19 { Entry19(n); }
    else if n == 20 { Entry20(n); }
    else if n == 21 { Entry21(n); }
    else if n == 22 { Entry22(n); }
    else if n == 23 { Entry23(n); }
    else if n == 24 { Entry24(n); }
    else if n == 25 { Entry25(n); }
    else if n == 26 { Entry26(n); }
    else if n == 27 { Entry27(n); }
    else if n == 28 { Entry28(n); }
    else if n == 29 { Entry29(n); }
    else if n == 30 { Entry30(n); }
    else if n == 31 { Entry31(n); }
    else { Entry32(n); }
  }

  /** Every key of the table is the mask of some prefix length from 8 to 32. */
  lemma KeysArePrefixMasks()
    ensures forall mask :: mask in SubnetMasks ==> mask in PrefixMasks()
  {
    Entry8(8); Entry9(9); Entry10(10); Entry11(11); Entry12(12);
    Entry13(13); Entry14(14); Entry15(15); Entry16(16); Entry17(17);
    Entry18(18); Entry19(19); Entry20(20); Entry21(21); Entry22(22);
    Entry23(23); Entry24(24); Entry25(25); Entry26(26); Entry27(27);
    Entry28(28); Entry29(29); Entry30(30); Entry31(31); Entry32(32);
  }

  /** The table is defined on exactly the masks of prefix length 8 to 32. */
  lemma TableIsPrefixMasks()
    ensures SubnetMasks.Keys == PrefixMasks()
  {
    KeysArePrefixMasks();
    EveryPrefixLengthInTable();
  }

  // One lemma per row of the table, from `/32` (objects_checkpoint_to_palo.py:20) down to `/8`
  // (objects_checkpoint_to_palo.py:44): each evaluates
  // the reference definition for one prefix length, which keeps every proof small.
  lemma Entry32(n: nat)
    requires n == 32
    ensures MaskOfLength(n) == "255.255.255.255" && "255.255.255.255" in SubnetMasks
    ensures SubnetMasks["255.255.255.255"] == "/" + NatToString(n)
  {
  }
  lemma Entry31(n: nat)
    requires n == 31
    ensures MaskOfLength(n) == "255.255.255.254" && "255.255.255.254" in SubnetMasks
    ensures SubnetMasks["255.255.255.254"] == "/" + NatToString(n)
  {
  }
  lemma Entry30(n: nat)
    requires n == 30
    ensures MaskOfLength(n) == "255.255.255.252" && "255.255.255.252" in SubnetMasks
    ensures SubnetMasks["255.255.255.252"] == "/" + NatToString(n)
  {
  }
  lemma Entry29(n: nat)
    requires n == 29
    ensures MaskOfLength(n) == "255.255.255.248" && "255.255.255.248" in SubnetMasks
    ensures SubnetMasks["255.255.255.248"] == "/" + NatToString(n)
  {
  }
  lemma Entry28(n: nat)
    requires n == 28
    ensures MaskOfLength(n) == "255.255.255.240" && "255.255.255.240" in SubnetMasks
    ensures SubnetMasks["255.255.255.240"] == "/" + NatToString(n)
  {
  }
  lemma Entry27(n: nat)
    requires n == 27
    ensures MaskOfLength(n) == "255.255.255.224" && "255.255.255.224" in SubnetMasks
    ensures SubnetMasks["255.255.255.224"] == "/" + NatToString(n)
  {
  }
  lemma Entry26(n: nat)
    requires n == 26
    ensures MaskOfLength(n) == "255.255.255.192" && "255.255.255.192" in SubnetMasks
    ensures SubnetMasks["255.255.255.192"] == "/" + NatToString(n)
  {
  }
  lemma Entry25(n: nat)
    requires n == 25
    ensures MaskOfLength(n) == "255.255.255.128" && "255.255.255.128" in SubnetMasks
    ensures SubnetMasks["255.255.255.128"] == "/" + NatToString(n)
  {
  }
  lemma Entry24(n: nat)
    requires n == 24
    ensures MaskOfLength(n) == "255.255.255.0" && "255.255.255.0" in SubnetMasks
    ensures SubnetMasks["255.255.255.0"] == "/" + NatToString(n)
  {
  }
  lemma Entry23(n: nat)
    requires n == 23
    ensures MaskOfLength(n) == "255.255.254.0" && "255.255.254.0" in SubnetMasks
    ensures SubnetMasks["255.255.254.0"] == "/" + NatToString(n)
  {
  }
  lemma Entry22(n: nat)
    requires n == 22
    ensures MaskOfLength(n) == "255.255.252.0" && "255.255.252.0" in SubnetMasks
    ensures SubnetMasks["255.255.252.0"] == "/" + NatToString(n)
  {
  }
  lemma Entry21(n: nat)
    requires n == 21
    ensures MaskOfLength(n) == "255.255.248.0" && "255.255.248.0" in SubnetMasks
    ensures SubnetMasks["255.255.248.0"] == "/" + NatToString(n)
  {
  }
  lemma Entry20(n: nat)
    requires n == 20
    ensures MaskOfLength(n) == "255.255.240.0" && "255.255.240.0" in SubnetMasks
    ensures SubnetMasks["255.255.240.0"] == "/" + NatToString(n)
  {
  }
  lemma Entry19(n: nat)
    requires n == 19
    ensures MaskOfLength(n) == "255.255.224.0" && "255.255.224.0" in SubnetMasks
    ensures SubnetMasks["255.255.224.0"] == "/" + NatToString(n)
  {
  }
  lemma Entry18(n: nat)
    requires n == 18
    ensures MaskOfLength(n) == "255.255.192.0" && "255.255.192.0" in SubnetMasks
    ensures SubnetMasks["255.255.192.0"] == "/" + NatToString(n)
  {
  }
  lemma Entry17(n: nat)
    requires n == 17
    ensures MaskOfLength(n) == "255.255.128.0" && "255.255.128.0" in SubnetMasks
    ensures SubnetMasks["255.255.128.0"] == "/" + NatToString(n)
  {
  }
  lemma Entry16(n: nat)
    requires n == 16
    ensures MaskOfLength(n) == "255.255.0.0" && "255.255.0.0" in SubnetMasks
    ensures SubnetMasks["255.255.0.0"] == "/" + NatToString(n)
  {
  }
  lemma Entry15(n: nat)
    requires n == 15
    ensures MaskOfLength(n) == "255.254.0.0" && "255.254.0.0" in SubnetMasks
    ensures SubnetMasks["255.254.0.0"] == "/" + NatToString(n)
  {
  }
  lemma Entry14(n: nat)
    requires n == 14
    ensures MaskOfLength(n) == "255.252.0.0" && "255.252.0.0" in SubnetMasks
    ensures SubnetMasks["255.252.0.0"] == "/" + NatToString(n)
  {
  }
  lemma Entry13(n: nat)
    requires n == 13
    ensures MaskOfLength(n) == "255.248.0.0" && "255.248.0.0" in SubnetMasks
    ensures SubnetMasks["255.248.0.0"] == "/" + NatToString(n)
  {
  }
  lemma Entry12(n: nat)
    requires n == 12
    ensures MaskOfLength(n) == "255.240.0.0" && "255.240.0.0" in SubnetMasks
    ensures SubnetMasks["255.240.0.0"] == "/" + NatToString(n)
  {
  }
  lemma Entry11(n: nat)
    requires n == 11
    ensures MaskOfLength(n) == "255.224.0.0" && "255.224.0.0" in SubnetMasks
    ensures SubnetMasks["255.224.0.0"] == "/" + NatToString(n)
  {
  }
  lemma Entry10(n: nat)
    requires n == 10
    ensures MaskOfLength(n) == "255.192.0.0" && "255.192.0.0" in SubnetMasks
    ensures SubnetMasks["255.192.0.0"] == "/" + NatToString(n)
  {
  }
  lemma Entry9(n: nat)
    requires n == 9
    ensures MaskOfLength(n) == "255.128.0.0" && "255.128.0.0" in SubnetMasks
    ensures SubnetMasks["255.128.0.0"] == "/" + NatToString(n)
  {
  }
  lemma Entry8(n: nat)
    requires n == 8
    ensures MaskOfLength(n) == "255.0.0.0" && "255.0.0.0" in SubnetMasks
    ensures SubnetMasks["255.0.0.0"] == "/" + NatToString(n)
  {
  }
}
