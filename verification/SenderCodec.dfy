/** How a system transaction's sender is encoded into the `s` of its fabricated signature. */
module SenderCodec {
  import opened Common

  const TWO_160: nat := 0x1_0000000000000000000000000000000000000000
  const TWO_256: nat := TWO_160 * 0x1_000000000000000000000000

  type Address = a: nat | a < TWO_160
  type U256 = s: nat | s < TWO_256

  const HYPE_SYSTEM_ADDRESS: Address := 0x2222222222222222222222222222222222222222
  const ADDRESS_ONE: Address := 1
  const ADDRESS_ONE_S: U256 := 0x10000000000000000000000000000000000000001

  // Big-endian bytes ----------------------------------------------------------------------------

  function Pow256(k: nat): (p: nat)
    ensures p > 0
  {
    if k == 0 then 1 else 256 * Pow256(k - 1)
  }

  function BeValue(bytes: Bytes): nat
  {
    if bytes == [] then 0 else BeValue(bytes[..|bytes| - 1]) * 256 + bytes[|bytes| - 1] as nat
  }

  function BeBytes(n: nat, len: nat): (bytes: Bytes)
    ensures |bytes| == len
  {
    if len == 0 then [] else BeBytes(n / 256, len - 1) + [(n % 256) as byte]
  }

  lemma ModUnique(n: nat, m: nat, q: nat, r: nat)
    requires n == m * q + r && r < m
    ensures n % m == r
  {
    var d := n / m - q;
    assert n == m * (n / m) + n % m;
    assert m * d == r - n % m;
    assert d >= 1 ==> m * d >= m;
    assert d <= -1 ==> m * d <= 0 - m;
  }

  lemma {:induction false} BeExact(n: nat, len: nat)
    requires n < Pow256(len)
    ensures BeValue(BeBytes(n, len)) == n
  {
    BeRoundTrip(n, len);
    ModUnique(n, Pow256(len), 0, n);
  }

  lemma DigitMod(n: nat, p: nat)
    requires p > 0
    ensures (n / 256) % p * 256 + n % 256 == n % (256 * p)
  {
    var q := n / 256;
    var t, r := q / p, q % p;
    assert q == p * t + r;
    assert 256 * (p * t) == (256 * p) * t;
    assert r * 256 + n % 256 < 256 * p;
    ModUnique(n, 256 * p, t, r * 256 + n % 256);
  }

  lemma {:induction false} BeRoundTrip(n: nat, len: nat)
    ensures BeValue(BeBytes(n, len)) == n % Pow256(len)
  {
    if len > 0 {
      var bytes := BeBytes(n, len);
      assert bytes[..|bytes| - 1] == BeBytes(n / 256, len - 1);
      BeRoundTrip(n / 256, len - 1);
      DigitMod(n, Pow256(len - 1));
    }
  }

  /** The last `k` bytes of a number are the bytes of the number cut to `k` bytes. */
  lemma {:induction false} BeSuffix(n: nat, len: nat, k: nat)
    requires k <= len
    ensures BeBytes(n, len)[len - k..] == BeBytes(n, k)
  {
    if k > 0 {
      BeSuffix(n / 256, len - 1, k - 1);
      assert BeBytes(n, len)[len - k..] == BeBytes(n / 256, len - 1)[len - k..] + [(n % 256) as byte];
    }
  }

  lemma Shift(v: nat, p: nat)
    ensures (v * p) * 256 == v * (256 * p)
  {
  }

  lemma {:induction false} BeConcat(a: Bytes, b: Bytes)
    ensures BeValue(a + b) == BeValue(a) * Pow256(|b|) + BeValue(b)
    decreases |b|
  {
    if b == [] {
      assert a + b == a;
    } else {
      var front := b[..|b| - 1];
      assert (a + b)[..|a + b| - 1] == a + front;
      BeConcat(a, front);
      Shift(BeValue(a), Pow256(|front|));
    }
  }

  lemma {:induction false} ZerosValue(n: nat)
    ensures BeValue(seq(n, _ => 0 as byte)) == 0
  {
    if n > 0 {
      var zeros: Bytes := seq(n, _ => 0);
      assert zeros[..n - 1] == seq(n - 1, _ => 0 as byte);
      ZerosValue(n - 1);
    }
  }

  lemma Powers()
    ensures Pow256(8) == U64
    ensures Pow256(19) == 0x1_00000000000000000000000000000000000000
    ensures Pow256(20) == TWO_160
  {
    assert Pow256(4) == 0x1_0000_0000;
    assert Pow256(8) == U64;
    assert Pow256(12) == 0x1_000000000000000000000000;
    assert Pow256(16) == 0x1_00000000000000000000000000000000;
  }

  // The codec -----------------------------------------------------------------------------------

  /** `s_to_address`: two sentinels, otherwise the low 20 of the 32 bytes of `s`. */
  function SToAddress(s: U256): Address
  {
    if s == 1 then HYPE_SYSTEM_ADDRESS
    else if s == ADDRESS_ONE_S then ADDRESS_ONE
    else LowBytesBound(s); BeValue(BeBytes(s, 32)[12..])
  }

  /** `address_to_s`: the same sentinels, otherwise the 20 bytes read as a number. */
  function AddressToS(a: Address): U256
  {
    if a == HYPE_SYSTEM_ADDRESS then 1
    else if a == ADDRESS_ONE then ADDRESS_ONE_S
    else AddressBytes(a); BeValue(BeBytes(a, 20))
  }

  lemma LowBytesBound(s: U256)
    ensures BeValue(BeBytes(s, 32)[12..]) == s % TWO_160
  {
    BeSuffix(s, 32, 20);
    BeRoundTrip(s, 20);
    Powers();
  }

  lemma AddressBytes(a: Address)
    ensures BeValue(BeBytes(a, 20)) == a
  {
    Powers();
    BeExact(a, 20);
  }

  /** The codec loses no sender: decoding inverts encoding on all 2^160 addresses. */
  lemma SenderRoundTrip(a: Address)
    ensures SToAddress(AddressToS(a)) == a
  {
    AddressBytes(a);
    if a != HYPE_SYSTEM_ADDRESS && a != ADDRESS_ONE {
      LowBytesBound(a);
    }
  }

  /** The values of `s` the encoder produces. */
  predicate Canonical(s: U256)
  {
    s == ADDRESS_ONE_S || (s < TWO_160 && s != HYPE_SYSTEM_ADDRESS)
  }

  /** Re-encoding a decoded `s` gives it back exactly when `s` is canonical. */
  lemma SRoundTrip(s: U256)
    ensures AddressToS(SToAddress(s)) == s <==> Canonical(s)
  {
    var a := SToAddress(s);
    AddressBytes(a);
    if s != 1 && s != ADDRESS_ONE_S {
      LowBytesBound(s);
      LowPart(s);
    }
  }

  lemma LowPart(s: nat)
    ensures s % TWO_160 < TWO_160
    ensures s % TWO_160 == s <==> s < TWO_160
    ensures s % TWO_160 == 1 ==> s == 1 || s >= ADDRESS_ONE_S
  {
  }

  /** What each value of `s` stands for. */
  lemma DecodedIs(s: U256)
    ensures SToAddress(s) == if s == 1 then 0x2222222222222222222222222222222222222222 else s % TWO_160
  {
    LowBytesBound(s);
  }

  /** Away from the sentinels the codec is the identity on addresses. */
  lemma PlainSender(a: Address)
    requires a != HYPE_SYSTEM_ADDRESS && a != ADDRESS_ONE
    ensures AddressToS(a) == a && SToAddress(a) == a
  {
    AddressBytes(a);
    LowBytesBound(a);
    LowPart(a);
  }

  lemma EncodedIsCanonical(a: Address)
    ensures Canonical(AddressToS(a))
  {
    AddressBytes(a);
  }

  // Spot tokens ---------------------------------------------------------------------------------

  const SPOT_PREFIX: nat := 0x2000000000000000000000000000000000000000

  /** The value `SpotId::to_s` computes: a token's system address 0x20...index. */
  function SpotS(index: nat): (s: U256)
    requires index < U64
    ensures Canonical(s)
  {
    SPOT_PREFIX + index
  }

  /** `SpotId::to_s` as it is written: set byte 12, copy the index into bytes 24..32, read 32 bytes. */
  method SpotIdToS(index: nat) returns (s: nat)
    requires index < U64
    ensures s == SpotS(index)
  {
    var addr := new byte[32](_ => 0);
    addr[12] := 0x20;
    var digits := BeBytes(index, 8);
    forall i | 24 <= i < 32 {
      addr[i] := digits[i - 24];
    }
    s := BeValue(addr[..]);
    SpotBytes(addr[..], index);
  }

  /** Leading zero bytes do not count. */
  lemma LeadingZeros(n: nat, bytes: Bytes)
    ensures BeValue(seq(n, _ => 0 as byte) + bytes) == BeValue(bytes)
  {
    ZerosValue(n);
    BeConcat(seq(n, _ => 0 as byte), bytes);
  }

  lemma IndexBytes(low: Bytes, index: nat)
    requires index < U64 && |low| == 19 && low[11..] == BeBytes(index, 8)
    requires forall i :: 0 <= i < 11 ==> low[i] == 0
    ensures BeValue(low) == index
  {
    Powers();
    BeExact(index, 8);
    assert low == seq(11, _ => 0 as byte) + low[11..];
    LeadingZeros(11, low[11..]);
  }

  lemma PrefixBytes(high: Bytes)
    requires |high| == 13 && high[12] == 0x20
    requires forall i :: 0 <= i < 12 ==> high[i] == 0
    ensures BeValue(high) == 0x20
  {
    assert high == seq(12, _ => 0 as byte) + [0x20];
    LeadingZeros(12, [0x20]);
    assert BeValue([0x20 as byte]) == 0x20;
  }

  lemma SpotBytes(addr: Bytes, index: nat)
    requires index < U64 && |addr| == 32 && addr[12] == 0x20
    requires forall i :: 0 <= i < 24 && i != 12 ==> addr[i] == 0
    requires addr[24..] == BeBytes(index, 8)
    ensures BeValue(addr) == SpotS(index)
  {
    var high, low := addr[..13], addr[13..];
    assert low[11..] == addr[24..];
    IndexBytes(low, index);
    PrefixBytes(high);
    assert addr == high + low;
    BeConcat(high, low);
    Powers();
  }
}
