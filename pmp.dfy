/**
 * src/pmp.rs: `PimpMyPeer`, a builder that collects lower-cased keywords
 * and then searches the linear sequence from a fixed seed for a matching
 * peer id.
 */
module Pmp {
  import opened Wrappers
  import opened Bytes
  import opened Secp256k1
  import opened Utils
  import opened ParIter
  import opened Strategy
  import opened Core
  import K = Keyword
  import Linear

  /** The seed `crunch` uses: 32 bytes of 0x61. */
  const CrunchSeedBytes: Bytes32 := seq(32, _ => 0x61)

  /** The number those 32 bytes denote. */
  const CrunchSeed: nat := 0x6161616161616161616161616161616161616161616161616161616161616161

  /** The big-endian value of k copies of byte b. */
  function Repeated(b: byte, k: nat): nat
  {
    if k == 0 then 0 else Repeated(b, k - 1) * 256 + b
  }

  lemma {:induction false} BeValueOfRepeated(b: byte, k: nat)
    ensures BeValue(seq(k, _ => b)) == Repeated(b, k)
  {
    if k > 0 {
      BeValueOfRepeated(b, k - 1);
      assert seq(k, _ => b)[..k - 1] == seq(k - 1, _ => b);
    }
  }

  lemma {:induction false} RepeatedAppend(b: byte, j: nat, k: nat)
    ensures Repeated(b, j + k) == Repeated(b, j) * Pow256(k) + Repeated(b, k)
  {
    if k > 0 {
      RepeatedAppend(b, j, k - 1);
    }
  }

  lemma Repeated61Of8()
    ensures Repeated(0x61, 8) == 0x6161616161616161
  {
    assert Repeated(0x61, 4) == 0x61616161;
    assert Pow256(4) == 0x1_0000_0000;
    RepeatedAppend(0x61, 4, 4);
  }

  lemma Repeated61Of16()
    ensures Repeated(0x61, 16) == 0x61616161616161616161616161616161
  {
    Repeated61Of8();
    Pow256Add(4, 4);
    assert Pow256(4) == 0x1_0000_0000;
    RepeatedAppend(0x61, 8, 8);
  }

  lemma Repeated61Of32()
    ensures Repeated(0x61, 32) == CrunchSeed
  {
    Repeated61Of16();
    assert Pow256(16) == 0x1_00000000000000000000000000000000 by {
      Pow256Add(8, 8);
      assert Pow256(8) == 0x1_0000_0000_0000_0000 by {
        Pow256Add(4, 4);
        assert Pow256(4) == 0x1_0000_0000;
      }
    }
    RepeatedAppend(0x61, 16, 16);
  }

  /** The seed of `crunch` lies below n, so its strategy never panics on construction. */
  lemma CrunchSeedInRange()
    ensures BeValue(CrunchSeedBytes) == CrunchSeed < N
  {
    BeValueOfRepeated(0x61, 32);
    Repeated61Of32();
  }

  /** The strategy `crunch` searches: the linear sequence from the 0x61 seed. */
  function CrunchStrategy(maxIters: nat): Linear.LinearStrategy
  {
    CrunchSeedInRange();
    Linear.LinearStrategy(maxIters, CrunchSeed, EcmultGen(CrunchSeed))
  }

  class PimpMyPeer {
    var keywords: seq<K.Keyword>

    /** Every stored keyword is lower case. */
    ghost predicate Valid()
      reads this
    {
      forall i | 0 <= i < |keywords| :: K.IsLowercase(keywords[i].text)
    }

    /** `PimpMyPeer::new`: no keywords yet. */
    constructor ()
      ensures Valid()
      ensures keywords == []
    {
      keywords := [];
    }

    /** `starts_with`: append one lower-cased StartsWith keyword, keep the others. */
    method StartsWith(keyword: string) returns (self: PimpMyPeer)
      requires Valid()
      modifies this
      ensures Valid() && self == this
      ensures keywords == old(keywords) + [K.StartsWith(K.ToLowercase(keyword))]
    {
      K.ToLowercaseIdempotent(keyword);
      keywords := keywords + [K.StartsWith(K.ToLowercase(keyword))];
      self := this;
    }

    /** `ends_with`: append one lower-cased EndsWith keyword, keep the others. */
    method EndsWith(keyword: string) returns (self: PimpMyPeer)
      requires Valid()
      modifies this
      ensures Valid() && self == this
      ensures keywords == old(keywords) + [K.EndsWith(K.ToLowercase(keyword))]
    {
      K.ToLowercaseIdempotent(keyword);
      keywords := keywords + [K.EndsWith(K.ToLowercase(keyword))];
      self := this;
    }

    /** `contains`: append one lower-cased Contains keyword, keep the others. */
    method Contains(keyword: string) returns (self: PimpMyPeer)
      requires Valid()
      modifies this
      ensures Valid() && self == this
      ensures keywords == old(keywords) + [K.Contains(K.ToLowercase(keyword))]
    {
      K.ToLowercaseIdempotent(keyword);
      keywords := keywords + [K.Contains(K.ToLowercase(keyword))];
      self := this;
    }

    /**
     * `is_valid`: Some exactly when every stored keyword checks against the
     * lower-cased peer id (always, with no keywords), and then the input
     * keys unchanged with their peer id.
     */
    function IsValid(result: KeyPair, derive: PublicKey -> PeerId): (r: Option<Found>)
      reads this
      ensures r.Some? <==> K.IsValid(keywords, K.ToLowercase(derive(result.pk)))
      ensures keywords == [] ==> r.Some?
      ensures r.Some? ==> r.value == Found(result.sk, result.pk, derive(result.pk))
    {
      Accept(keywords, derive, result)
    }

    /**
     * `crunch`: the linear strategy from the 0x61 seed searched with
     * `is_valid` gives exactly what `pimp` gives on that strategy with the
     * stored keywords.
     */
    method Crunch(maxIters: nat, curve: Curve, derive: PublicKey -> PeerId) returns (r: Result<Option<Found>, Panic>)
      ensures r == Pimp(Linear.Items(CrunchStrategy(maxIters), curve), keywords, derive)
    {
      CrunchSeedInRange();
      var strategy := Linear.New(maxIters, CrunchSeedBytes);
      assert strategy == Success(CrunchStrategy(maxIters));
      var kws := keywords;
      var items := Linear.Items(strategy.value, curve);
      r := FindMapFirst(items, kp => Accept(kws, derive, kp));
    }
  }

  /**
   * Case does not matter: the stored keywords are lower case, so a peer id
   * that satisfies them exactly as written, in whatever case, is accepted by
   * `is_valid`, which checks its lower-cased form.
   */
  lemma ExactMatchAccepted(p: PimpMyPeer, result: KeyPair, derive: PublicKey -> PeerId)
    requires p.Valid()
    requires K.IsValid(p.keywords, derive(result.pk))
    ensures p.IsValid(result, derive).Some?
  {
    var id := derive(result.pk);
    forall i | 0 <= i < |p.keywords|
      ensures K.Check(p.keywords[i], K.ToLowercase(id))
    {
      var k := p.keywords[i];
      K.LowercasePreservesMatch(k, id);
      K.ToLowercaseIdempotent(k.text);
      assert K.LowerKeyword(k) == k;
    }
  }

  /** Peer ids that agree up to case are accepted alike. */
  lemma IsValidIgnoresCase(p: PimpMyPeer, a: KeyPair, b: KeyPair, derive: PublicKey -> PeerId)
    requires K.ToLowercase(derive(a.pk)) == K.ToLowercase(derive(b.pk))
    ensures p.IsValid(a, derive).Some? <==> p.IsValid(b, derive).Some?
  {
  }
}
