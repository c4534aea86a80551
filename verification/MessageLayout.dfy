/** The byte string a replica signs and a client verifies: transaction data, timestamp, sequence number. */
module MessageLayout {
  import opened Types

  /** The `width` low-order bytes of `n`, least significant first. */
  function LittleEndian(n: nat, width: nat): (b: Bytes)
    ensures |b| == width
  {
    if width == 0 then [] else [n % 256] + LittleEndian(n / 256, width - 1)
  }

  function FromLittleEndian(b: Bytes): nat {
    if b == [] then 0 else b[0] + 256 * FromLittleEndian(b[1..])
  }

  function Pow256(width: nat): (p: nat)
    ensures p > 0
  {
    if width == 0 then 1 else 256 * Pow256(width - 1)
  }

  /** Decoding gives back every value that fits in `width` bytes. */
  lemma {:induction false} LittleEndianRoundTrip(n: nat, width: nat)
    requires n < Pow256(width)
    ensures FromLittleEndian(LittleEndian(n, width)) == n
  {
    if width == 0 {
    } else {
      assert n / 256 < Pow256(width - 1);
      LittleEndianRoundTrip(n / 256, width - 1);
      assert LittleEndian(n, width)[1..] == LittleEndian(n / 256, width - 1);
    }
  }

  lemma QuotientIsUnique(n: nat, d: nat, q: nat, r: nat)
    requires d > 0 && n == d * q + r && r < d
    ensures n / d == q
  {
    var k := n / d;
    assert n == d * k + n % d;
    assert k < q ==> d * (k + 1) <= d * q;
    assert k > q ==> d * (q + 1) <= d * k;
  }

  /** Dividing twice is dividing by the product. */
  lemma DivideTwice(n: nat, p: nat)
    requires p > 0
    ensures n / 256 / p == n / (256 * p)
  {
    var a, r := n / 256, n % 256;
    var q, t := a / p, a % p;
    assert a == p * q + t;
    assert n == 256 * (p * q + t) + r == (256 * p) * q + (256 * t + r);
    QuotientIsUnique(n, 256 * p, q, 256 * t + r);
  }

  /** Byte `i` is the digit of weight 256^i: the least significant byte comes first. */
  lemma {:induction false} LittleEndianDigit(n: nat, width: nat, i: nat)
    requires i < width
    ensures LittleEndian(n, width)[i] == n / Pow256(i) % 256
  {
    if i == 0 {
    } else {
      LittleEndianDigit(n / 256, width - 1, i - 1);
      DivideTwice(n, Pow256(i - 1));
      assert LittleEndian(n, width)[i] == LittleEndian(n / 256, width - 1)[i - 1];
    }
  }

  /** Every byte string is the encoding of what it decodes to. */
  lemma {:induction false} EncodingIsUnique(b: Bytes)
    ensures LittleEndian(FromLittleEndian(b), |b|) == b
  {
    if b == [] {
    } else {
      EncodingIsUnique(b[1..]);
      assert FromLittleEndian(b) % 256 == b[0] && FromLittleEndian(b) / 256 == FromLittleEndian(b[1..]);
      assert b == [b[0]] + b[1..];
    }
  }

  lemma Pow256Constants()
    ensures Pow256(4) == TWO_32 && Pow256(8) == TWO_64
  {
    assert Pow256(2) == 0x1_0000;
    assert Pow256(4) == 256 * (256 * Pow256(2));
    assert Pow256(6) == 256 * (256 * Pow256(4));
    assert Pow256(8) == 256 * (256 * Pow256(6));
  }

  /** Built the same way by the log-vote task, the heartbeat task and the client's signature check. */
  function MessageToSign(data: Bytes, ts: Timestamp, sn: SequenceNumber): (m: Bytes)
    ensures |m| == |data| + 16
  {
    data + LittleEndian(ts, 8) + LittleEndian(sn, 8)
  }

  /** The data comes first, then the timestamp, then the sequence number, in eight bytes each. */
  lemma MessageFields(data: Bytes, ts: Timestamp, sn: SequenceNumber)
    ensures var m, n := MessageToSign(data, ts, sn), |data|;
            && m[..n] == data
            && FromLittleEndian(m[n..n + 8]) == ts
            && FromLittleEndian(m[n + 8..]) == sn
  {
    var m, n := MessageToSign(data, ts, sn), |data|;
    Pow256Constants();
    LittleEndianRoundTrip(ts, 8);
    LittleEndianRoundTrip(sn, 8);
    assert m[n..n + 8] == LittleEndian(ts, 8);
    assert m[n + 8..] == LittleEndian(sn, 8);
  }

  /** No two (data, timestamp, sequence number) triples share a signed message, whatever their data lengths. */
  lemma MessageToSignInjective(d1: Bytes, ts1: Timestamp, sn1: SequenceNumber, d2: Bytes, ts2: Timestamp, sn2: SequenceNumber)
    requires MessageToSign(d1, ts1, sn1) == MessageToSign(d2, ts2, sn2)
    ensures d1 == d2 && ts1 == ts2 && sn1 == sn2
  {
    MessageFields(d1, ts1, sn1);
    MessageFields(d2, ts2, sn2);
  }
}
