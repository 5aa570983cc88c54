/** The byte string that the counter service hashes to recognise a retried mutation.
    A Go string is a sequence of bytes; here a byte is the character with that code.
    SHA-256 is taken to be collision free, so a hash is represented by its preimage. */
module RequestHash {
  import opened Common

  const TWO64: int := 0x1_0000_0000_0000_0000

  /** The `width` low-order bytes of `x`, most significant first. */
  function BigEndian(x: nat, width: nat): (s: string)
    ensures |s| == width
  {
    if width == 0 then "" else BigEndian(x / 256, width - 1) + [(x % 256) as char]
  }

  /** Reads bytes back as a number. */
  function Number(s: string): int {
    if s == "" then 0 else 256 * Number(s[..|s| - 1]) + s[|s| - 1] as int
  }

  function Power256(n: nat): nat {
    if n == 0 then 1 else 256 * Power256(n - 1)
  }

  lemma {:induction false} BigEndianRoundTrip(x: nat, width: nat)
    requires x < Power256(width)
    ensures Number(BigEndian(x, width)) == x
  {
    if width > 0 {
      BigEndianRoundTrip(x / 256, width - 1);
      assert BigEndian(x, width)[..width - 1] == BigEndian(x / 256, width - 1);
    }
  }

  lemma Power256Of8()
    ensures Power256(8) == TWO64
  {
    assert Power256(2) == 0x1_0000;
    assert Power256(4) == 0x1_0000_0000;
    assert Power256(6) == 0x1_0000_0000_0000;
  }

  /** Go's conversion uint64(value). */
  function Uint64(value: int64): (u: nat)
    ensures u < TWO64 && (u == value || u == value + TWO64)
  {
    if value < 0 then value + TWO64 else value
  }

  /** A field as it is written to the hash: its length in eight bytes, then its bytes. */
  function Field(s: string): string {
    BigEndian(|s|, 8) + s
  }

  function Fields(fields: seq<string>): string {
    if fields == [] then "" else Fields(fields[..|fields| - 1]) + Field(fields[|fields| - 1])
  }

  const VERSION := "counter-operation-v1"

  function Encode(kind: string, tenant: string, counter: string, value: int64): string {
    Field(VERSION) + Field(kind) + Field(tenant) + Field(counter) + BigEndian(Uint64(value), 8)
  }

  /** The layout that recorded hashes depend on: the version tag first, each text after its length
      in eight bytes, and the value last, as eight bytes of two's complement. */
  lemma EncodeLayout(kind: string, tenant: string, counter: string, value: int64)
    ensures var unsigned := if value < 0 then value + 0x1_0000_0000_0000_0000 else value;
            && Encode(kind, tenant, counter, value) ==
               (BigEndian(20, 8) + "counter-operation-v1") + (BigEndian(|kind|, 8) + kind) + (BigEndian(|tenant|, 8) + tenant)
               + (BigEndian(|counter|, 8) + counter) + BigEndian(unsigned, 8)
            && Number(BigEndian(unsigned, 8)) == unsigned
  {
    Power256Of8();
    BigEndianRoundTrip(Uint64(value), 8);
  }

  /** The length prefix makes a field self-delimiting: nothing after it can blur its end. */
  lemma FieldIsPrefixFree(a: string, restA: string, b: string, restB: string)
    requires |a| < TWO64 && |b| < TWO64
    requires Field(a) + restA == Field(b) + restB
    ensures a == b && restA == restB
  {
    var left, right := Field(a) + restA, Field(b) + restB;
    assert left[..8] == BigEndian(|a|, 8);
    assert right[..8] == BigEndian(|b|, 8);
    Power256Of8();
    BigEndianRoundTrip(|a|, 8);
    BigEndianRoundTrip(|b|, 8);
    assert left[8..8 + |a|] == a && left[8 + |a|..] == restA;
    assert right[8..8 + |b|] == b && right[8 + |b|..] == restB;
  }

  /** Two mutations share a request hash only if they are the same mutation: kind, tenant,
      counter and the signed 64-bit amount can all be recovered from the encoding. */
  lemma EncodeIsInjective(kind1: string, tenant1: string, counter1: string, value1: int64,
                          kind2: string, tenant2: string, counter2: string, value2: int64)
    requires |kind1| < TWO64 && |tenant1| < TWO64 && |counter1| < TWO64
    requires |kind2| < TWO64 && |tenant2| < TWO64 && |counter2| < TWO64
    requires Encode(kind1, tenant1, counter1, value1) == Encode(kind2, tenant2, counter2, value2)
    ensures kind1 == kind2 && tenant1 == tenant2 && counter1 == counter2 && value1 == value2
  {
    var tail1, tail2 := BigEndian(Uint64(value1), 8), BigEndian(Uint64(value2), 8);
    Regroup(kind1, tenant1, counter1, tail1);
    Regroup(kind2, tenant2, counter2, tail2);
    FieldIsPrefixFree(VERSION, Field(kind1) + (Field(tenant1) + (Field(counter1) + tail1)),
                      VERSION, Field(kind2) + (Field(tenant2) + (Field(counter2) + tail2)));
    FieldIsPrefixFree(kind1, Field(tenant1) + (Field(counter1) + tail1),
                      kind2, Field(tenant2) + (Field(counter2) + tail2));
    FieldIsPrefixFree(tenant1, Field(counter1) + tail1, tenant2, Field(counter2) + tail2);
    FieldIsPrefixFree(counter1, tail1, counter2, tail2);
    Power256Of8();
    BigEndianRoundTrip(Uint64(value1), 8);
    BigEndianRoundTrip(Uint64(value2), 8);
  }

  lemma Regroup(kind: string, tenant: string, counter: string, tail: string)
    ensures Field(VERSION) + Field(kind) + Field(tenant) + Field(counter) + tail
         == Field(VERSION) + (Field(kind) + (Field(tenant) + (Field(counter) + tail)))
  {
    var v, k, t, c := Field(VERSION), Field(kind), Field(tenant), Field(counter);
    assert v + k + t + c + tail == v + (k + (t + (c + tail)));
  }

  lemma FieldsOfFour(a: string, b: string, c: string, d: string)
    ensures Fields([a, b, c, d]) == Field(a) + Field(b) + Field(c) + Field(d)
  {
    assert [a, b, c, d][..3] == [a, b, c];
    assert [a, b, c][..2] == [a, b];
    assert [a, b][..1] == [a];
    assert [a][..0] == [];
    assert Fields([a]) == Field(a);
    assert Fields([a, b]) == Field(a) + Field(b);
    assert Fields([a, b, c]) == Field(a) + Field(b) + Field(c);
  }

  /** What the loop feeds to the hash is exactly the injective encoding. */
  method MutationRequestHash(kind: string, tenant: string, counter: string, value: int64)
    returns (hashed: string)
    ensures hashed == Encode(kind, tenant, counter, value)
  {
    hashed := "";
    var fields := [VERSION, kind, tenant, counter];
    for i := 0 to |fields|
      invariant hashed == Fields(fields[..i])
    {
      assert fields[..i + 1][..i] == fields[..i];
      hashed := hashed + BigEndian(|fields[i]|, 8);
      hashed := hashed + fields[i];
    }
    assert fields[..4] == fields;
    FieldsOfFour(VERSION, kind, tenant, counter);
    hashed := hashed + BigEndian(Uint64(value), 8);
  }
}
