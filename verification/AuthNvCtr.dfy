/** The rollback counter in a certificate: the DER integer decoder of the authentication module (sections 8.1.3
    and 8.3 of ITU-T X.690). */
module AuthNvCtr {
  import opened Bytes
  import opened Wrappers

  const ASN1_INTEGER: nat := 2
  const U31: nat := 0x8000_0000
  const U32: nat := 0x1_0000_0000

  /** The six bytes from the start of the counter parameter. The decoder looks at no others, and it looks at them
      whatever the length of the parameter. */
  type Window = b: seq<byte> | |b| == 6 witness [0, 0, 0, 0, 0, 0]

  /** The value of octets with the most significant first. */
  function BigEndian(b: seq<byte>): nat
    decreases |b|
  {
    if |b| == 0 then 0 else 256 * BigEndian(b[..|b| - 1]) + b[|b| - 1]
  }

  /** Tag, short-form length of at most four, and a first content octet without its sign bit. */
  predicate WellFormed(der: Window) {
    der[0] == ASN1_INTEGER && der[1] <= 4 && der[2] < 0x80
  }

  /** The counter value in a certificate, if the decoder accepts it. */
  function DerValue(der: Window): (r: Option<nat>)
    ensures r.Some? ==> r.value < U31
  {
    if WellFormed(der) then
      BelowU31(der[2..2 + der[1]]);
      Some(BigEndian(der[2..2 + der[1]]))
    else None
  }

  function Pow256(n: nat): (r: nat)
    ensures r > 0
  {
    if n == 0 then 1 else 256 * Pow256(n - 1)
  }

  lemma {:induction false} BigEndianBelow(b: seq<byte>)
    ensures BigEndian(b) < Pow256(|b|)
    decreases |b|
  {
    if |b| > 0 {
      BigEndianBelow(b[..|b| - 1]);
    }
  }

  /** The first octet has weight 256^(n-1). */
  lemma {:induction false} BigEndianFirst(b: seq<byte>)
    requires |b| > 0
    ensures BigEndian(b) == b[0] * Pow256(|b| - 1) + BigEndian(b[1..])
    decreases |b|
  {
    if |b| == 1 {
      assert b[..0] == [] && b[1..] == [];
    } else {
      var k := |b| - 1;
      BigEndianFirst(b[..k]);
      assert b[..k][1..] == b[1..][..k - 1];
      assert b[1..][k - 1] == b[k];
      assert 256 * (b[0] * Pow256(k - 1)) == b[0] * Pow256(k);
    }
  }

  /** Up to four octets without a sign bit stay below 2^31. */
  lemma {:induction false} BelowU31(b: seq<byte>)
    requires |b| <= 4 && (|b| > 0 ==> b[0] < 0x80)
    ensures BigEndian(b) < U31
  {
    if |b| > 0 {
      BigEndianFirst(b);
      BigEndianBelow(b[1..]);
      Powers();
      if |b| == 1 {
      } else if |b| == 2 {
      } else if |b| == 3 {
      } else {
        assert |b| == 4;
      }
    }
  }

  lemma {:induction false} Powers()
    ensures Pow256(0) == 1 && Pow256(1) == 256 && Pow256(2) == 0x1_0000
    ensures Pow256(3) == 0x100_0000 && Pow256(4) == U32
  {
    assert Pow256(1) == 256 * Pow256(0);
    assert Pow256(2) == 256 * Pow256(1);
    assert Pow256(3) == 256 * Pow256(2);
  }

  /** Which windows are accepted, and the value of each length. */
  lemma {:induction false} DerOctets(der: Window)
    ensures DerValue(der).Some? <==> der[0] == 2 && der[1] <= 4 && der[2] < 128
    ensures DerValue(der).Some? ==>
      var b0: int, b1: int, b2: int, b3: int := der[2], der[3], der[4], der[5];
      DerValue(der).value ==
        if der[1] == 0 then 0
        else if der[1] == 1 then b0
        else if der[1] == 2 then 256 * b0 + b1
        else if der[1] == 3 then 0x1_0000 * b0 + 256 * b1 + b2
        else 0x100_0000 * b0 + 0x1_0000 * b1 + 256 * b2 + b3
  {
    if DerValue(der).Some? {
      var b := der[2..6];
      assert b[..3] == der[2..5] && b[..2] == der[2..4] && b[..1] == der[2..3] && b[..0] == [];
      assert BigEndian(b[..1]) == b[0] by { assert b[..1][..0] == []; }
      assert BigEndian(b[..2]) == 256 * BigEndian(b[..1]) + b[1] by { assert b[..2][..1] == b[..1]; }
      assert BigEndian(b[..3]) == 256 * BigEndian(b[..2]) + b[2] by { assert b[..3][..2] == b[..2]; }
      assert BigEndian(b) == 256 * BigEndian(b[..3]) + b[3];
      assert der[1] == 0 ==> der[2..2 + der[1]] == [];
    }
  }

  // ----- the encoder that DER prescribes

  /** The fewest octets that hold `v`. */
  function Octets(v: nat): (r: seq<byte>)
    ensures |r| > 0
    decreases v
  {
    if v < 256 then [v] else Octets(v / 256) + [v % 256]
  }

  lemma {:induction false} OctetsValue(v: nat)
    ensures BigEndian(Octets(v)) == v
    decreases v
  {
    if v < 256 {
      assert [v][..0] == [];
    } else {
      OctetsValue(v / 256);
      assert Octets(v)[..|Octets(v)| - 1] == Octets(v / 256);
    }
  }

  lemma {:induction false} OctetsLeast(v: nat)
    ensures |Octets(v)| > 1 ==> v >= Pow256(|Octets(v)| - 1)
    ensures |Octets(v)| > 1 ==> Octets(v)[0] > 0
    decreases v
  {
    if v >= 256 {
      OctetsLeast(v / 256);
      if v / 256 < 256 {
        Powers();
        assert |Octets(v)| == 2;
      } else {
        var n := |Octets(v / 256)|;
        assert n > 1 && |Octets(v)| - 1 == n;
        assert Pow256(n) == 256 * Pow256(n - 1);
      }
    }
  }

  /** Content octets of a non-negative integer: a zero octet first when the sign bit would be set. */
  function Content(v: nat): (r: seq<byte>)
    ensures |r| > 0 && r[0] < 0x80
  {
    if Octets(v)[0] < 0x80 then Octets(v) else [0] + Octets(v)
  }

  /** The window that starts with the DER encoding of `v`, when its length has the short form. */
  predicate Encodes(der: Window, v: nat) {
    && der[0] == ASN1_INTEGER && der[1] == |Content(v)| && |Content(v)| < 0x80
    && forall k :: 0 <= k < |Content(v)| && k < 4 ==> der[2 + k] == Content(v)[k]
  }

  /** A DER-encoded counter decodes to its value exactly when it is below 2^31; otherwise it is refused. */
  lemma {:induction false} DecodesIff(der: Window, v: nat)
    requires Encodes(der, v)
    ensures DerValue(der) == if v < U31 then Some(v) else None
  {
    ContentValue(v);
    ContentShortIff(v);
    if v < U31 {
      assert der[2..2 + der[1]] == Content(v);
    }
  }

  lemma {:induction false} ContentValue(v: nat)
    ensures BigEndian(Content(v)) == v
  {
    OctetsValue(v);
    if Octets(v)[0] >= 0x80 {
      BigEndianFirst([0] + Octets(v));
      assert ([0] + Octets(v))[1..] == Octets(v);
    }
  }

  lemma {:induction false} ContentShortIff(v: nat)
    ensures |Content(v)| <= 4 <==> v < U31
  {
    ContentValue(v);
    if |Content(v)| <= 4 {
      BelowU31(Content(v));
    } else {
      var o := Octets(v);
      Powers();
      OctetsLeast(v);
      OctetsValue(v);
      BigEndianFirst(o);
      assert |o| >= 4;
      if |o| == 4 {
        assert o[0] >= 0x80;
      } else {
        PowGrows(4, |o| - 1);
      }
    }
  }

  lemma {:induction false} PowGrows(m: nat, n: nat)
    requires m <= n
    ensures Pow256(m) <= Pow256(n)
    decreases n
  {
    if m < n {
      PowGrows(m, n - 1);
    }
  }

  // ----- the decoder

  /** The decoding loop: 32-bit shifts never lose a bit. */
  method DecodeCounter(der: Window) returns (r: Option<nat>)
    ensures r == DerValue(der)
  {
    if der[0] != ASN1_INTEGER {
      return None;
    }
    var len: int := der[1] % 0x80;
    if der[1] >= 0x80 || len > 4 {
      return None;
    }
    if der[2] >= 0x80 {
      return None;
    }
    var value: nat, p: nat := 0, 2;
    for i := 0 to len
      invariant p == 2 + i
      invariant value == BigEndian(der[2..2 + i])
    {
      assert der[2..2 + i + 1][..i] == der[2..2 + i];
      BelowU31(der[2..2 + i + 1]);
      value := (value * 256) % U32 + der[p];
      p := p + 1;
    }
    r := Some(value);
  }
}
