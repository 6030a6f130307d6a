/**
 * src/core.rs: `pimp` scans a strategy's items for the first key pair
 * whose peer id, lower-cased, satisfies every keyword. Deriving the peer id
 * from a public key (multihash and base58) is outside this model and enters
 * as the function `derive`, which gives the peer id's string form.
 */
module Core {
  import opened Wrappers
  import opened Secp256k1
  import opened Utils
  import opened Keyword
  import opened ParIter
  import opened Strategy
  import Linear
  import Identity

  /** A peer id, held by its string form. */
  type PeerId = string

  /** A successful search: the secret key, the public key and the peer id. */
  datatype Found = Found(sk: SecretKey, pk: PublicKey, peerId: PeerId)

  /** The key pair's peer id, lower-cased, satisfies every keyword. */
  predicate Matches(keywords: Keywords, derive: PublicKey -> PeerId, kp: KeyPair)
  {
    IsValid(keywords, ToLowercase(derive(kp.pk)))
  }

  /** Every item before index i was produced and does not match. */
  ghost predicate NoMatchBefore(items: seq<Item>, keywords: Keywords, derive: PublicKey -> PeerId, i: nat)
  {
    i <= |items| && forall j | 0 <= j < i :: items[j].Success? && !Matches(keywords, derive, items[j].value)
  }

  /** The closure `pimp` hands to `find_map_first`. */
  function Accept(keywords: Keywords, derive: PublicKey -> PeerId, kp: KeyPair): (r: Option<Found>)
    ensures r.Some? <==> Matches(keywords, derive, kp)
    ensures r.Some? ==> r.value == Found(kp.sk, kp.pk, derive(kp.pk))
  {
    var peerId := derive(kp.pk);
    if IsValid(keywords, ToLowercase(peerId)) then Some(Found(kp.sk, kp.pk, peerId)) else None
  }

  /** What `find_map_first` promises, stated for the closure of `pimp`. */
  lemma FindMapFirstAccept(items: seq<Item>, keywords: Keywords, derive: PublicKey -> PeerId, accept: KeyPair -> Option<Found>)
    requires forall kp :: accept(kp) == Accept(keywords, derive, kp)
    ensures var r := FindMapFirst(items, accept);
      && (r == Success(None) <==> NoMatchBefore(items, keywords, derive, |items|))
      && (r.Success? && r.value.Some? ==>
            var f := r.value.value;
            && f.peerId == derive(f.pk)
            && IsValid(keywords, ToLowercase(f.peerId))
            && exists i | 0 <= i < |items| :: items[i] == Success(KeyPair(f.sk, f.pk)) && NoMatchBefore(items, keywords, derive, i))
      && (r.Failure? ==>
            exists i | 0 <= i < |items| :: items[i] == Failure(r.error) && NoMatchBefore(items, keywords, derive, i))
  {
    var r := FindMapFirst(items, accept);
    assert Passed(items, accept, |items|) <==> NoMatchBefore(items, keywords, derive, |items|);
    if r.Success? && r.value.Some? {
      var i :| 0 <= i < |items| && Passed(items, accept, i) && items[i].Success? && accept(items[i].value) == r.value;
      assert NoMatchBefore(items, keywords, derive, i);
    } else if r.Failure? {
      var i :| 0 <= i < |items| && Passed(items, accept, i) && items[i] == Failure(r.error);
      assert NoMatchBefore(items, keywords, derive, i);
    }
  }

  /**
   * `pimp`: the first item, in sequence order, whose derived peer id
   * satisfies the keywords, returned with that very key pair and its peer
   * id; None exactly when every item was produced and none matches; and the
   * panic of the first item that failed, if that comes before any match.
   */
  function Pimp(items: seq<Item>, keywords: Keywords, derive: PublicKey -> PeerId): (r: Result<Option<Found>, Panic>)
    ensures r == Success(None) <==> NoMatchBefore(items, keywords, derive, |items|)
    ensures r.Success? && r.value.Some? ==>
      var f := r.value.value;
      && f.peerId == derive(f.pk)
      && IsValid(keywords, ToLowercase(f.peerId))
      && exists i | 0 <= i < |items| :: items[i] == Success(KeyPair(f.sk, f.pk)) && NoMatchBefore(items, keywords, derive, i)
    ensures r.Failure? ==>
      exists i | 0 <= i < |items| :: items[i] == Failure(r.error) && NoMatchBefore(items, keywords, derive, i)
  {
    var accept := kp => Accept(keywords, derive, kp);
    FindMapFirstAccept(items, keywords, derive, accept);
    FindMapFirst(items, accept)
  }

  /**
   * Splitting the items into contiguous ranges searched separately and
   * keeping the leftmost answer gives what `pimp` gives: the same match
   * for one worker and for many.
   */
  lemma PimpSplitAgrees(chunks: seq<seq<Item>>, keywords: Keywords, derive: PublicKey -> PeerId)
    ensures LeftmostFound(SearchEach(chunks, kp => Accept(keywords, derive, kp)))
         == Pimp(Flatten(chunks), keywords, derive)
  {
    SplitSearchIsSequential(chunks, kp => Accept(keywords, derive, kp));
  }

  /**
   * A linear search from the zero seed, as the command line starts it,
   * panics whatever the keywords: element 0 has secret scalar zero.
   */
  lemma PimpLinearZeroSeedPanics(maxIters: nat, curve: Curve, keywords: Keywords, derive: PublicKey -> PeerId)
    requires maxIters >= 1
    ensures Pimp(Linear.Items(Linear.LinearStrategy(maxIters, 0, EcmultGen(0)), curve), keywords, derive)
         == Failure(SecretKeyUnparsable)
  {
    var items := Linear.Items(Linear.LinearStrategy(maxIters, 0, EcmultGen(0)), curve);
    assert items[0] == Failure(SecretKeyUnparsable);
  }

  /**
   * The identity strategy on a sound curve with a seed other than zero
   * finds its one key pair exactly when that pair's peer id matches.
   */
  lemma PimpIdentity(s: Identity.IdentityStrategy, curve: Curve, keywords: Keywords, derive: PublicKey -> PeerId)
    requires Sound(curve)
    requires s.seed != 0
    ensures var sk := SecretKey(s.seed);
            var pk := KeypairPublic(curve, sk);
            Pimp(Identity.Items(s, curve), keywords, derive) ==
              if IsValid(keywords, ToLowercase(derive(pk))) then Success(Some(Found(sk, pk, derive(pk))))
              else Success(None)
  {
    Identity.SingleItemIsSeedKeyPair(s, curve);
  }
}
