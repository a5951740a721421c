// Hierarchical key derivation (netcoin/hd.py) and double-and-add multiplication
// (netcoin/crypto.py), over an abstract cyclic group (BIP 32 section "Child key derivation
// (CKD) functions").
module HdKeys {
  import opened Wrappers
  import opened Arithmetic

  const HARDENED := 0x8000_0000
  const INDEX_LIMIT := 0x1_0000_0000

  type Bytes = seq<nat>

  // The group with its generator and order, and the hashes and encodings of the source.
  datatype Curve<!P> = Curve(
    add: (P, P) -> P, neg: P -> P, zero: P, g: P, order: nat,
    compress: P -> Bytes,
    hmac: (Bytes, HmacData) -> (nat, Bytes),
    fingerprint: Bytes -> Bytes)

  datatype HmacData = Public(key: Bytes, index: nat) | Private(secret: nat, index: nat)

  // k-fold addition.
  function Times<P>(c: Curve<P>, k: nat, p: P): P {
    if k == 0 then c.zero else c.add(Times(c, k - 1, p), p)
  }

  // A group whose order kills every element and which the generator generates.
  ghost predicate IsGroup<P(!new)>(c: Curve<P>) {
    && c.order > 1
    && (forall x, y, z :: c.add(c.add(x, y), z) == c.add(x, c.add(y, z)))
    && (forall x :: c.add(c.zero, x) == x && c.add(x, c.zero) == x)
    && (forall x :: c.add(c.neg(x), x) == c.zero)
    && (forall x :: Times(c, c.order, x) == c.zero)
    && (forall k: nat :: 0 < k < c.order ==> Times(c, k, c.g) != c.zero)
  }

  // ---- single uses of the group laws ----

  lemma Associative<P(!new)>(c: Curve<P>, x: P, y: P, z: P)
    requires IsGroup(c)
    ensures c.add(c.add(x, y), z) == c.add(x, c.add(y, z))
  {
  }

  lemma ZeroIsNeutral<P(!new)>(c: Curve<P>, x: P)
    requires IsGroup(c)
    ensures c.order > 1 && c.add(c.zero, x) == x && c.add(x, c.zero) == x
  {
  }

  lemma OrderKills<P(!new)>(c: Curve<P>, x: P)
    requires IsGroup(c)
    ensures c.order > 1 && Times(c, c.order, x) == c.zero
  {
  }

  // ---- k-fold addition ----

  lemma {:induction false} TimesAdds<P(!new)>(c: Curve<P>, a: nat, b: nat, p: P)
    requires IsGroup(c)
    ensures Times(c, a + b, p) == c.add(Times(c, a, p), Times(c, b, p))
  {
    hide IsGroup;
    if b == 0 {
      ZeroIsNeutral(c, Times(c, a, p));
    } else {
      TimesAdds(c, a, b - 1, p);
      Associative(c, Times(c, a, p), Times(c, b - 1, p), p);
    }
  }

  lemma {:induction false} TimesOfMultiple<P(!new)>(c: Curve<P>, k: nat, n: nat, p: P)
    requires IsGroup(c)
    ensures k * n >= 0
    ensures Times(c, k * n, p) == Times(c, k, Times(c, n, p))
  {
    hide IsGroup;
    if k > 0 {
      TimesOfMultiple(c, k - 1, n, p);
      assert k * n == (k - 1) * n + n;
      TimesAdds(c, (k - 1) * n, n, p);
    }
  }

  lemma {:induction false} TimesOfZero<P(!new)>(c: Curve<P>, k: nat)
    requires IsGroup(c)
    ensures Times(c, k, c.zero) == c.zero
  {
    hide IsGroup;
    if k > 0 {
      TimesOfZero(c, k - 1);
      ZeroIsNeutral(c, c.zero);
    }
  }

  // What scalar multiplication by any integer means.
  function Multiple<P>(c: Curve<P>, k: int, p: P): P
    requires c.order > 0
  {
    Times(c, k % c.order, p)
  }

  lemma TimesDropsOrders<P(!new)>(c: Curve<P>, q: nat, m: nat, p: P)
    requires IsGroup(c)
    ensures q * c.order >= 0 && Times(c, q * c.order + m, p) == Times(c, m, p)
  {
    hide Times;
    OrderKills(c, p);
    hide IsGroup;
    TimesOfMultiple(c, q, c.order, p);
    TimesOfZero(c, q);
    TimesAdds(c, q * c.order, m, p);
    ZeroIsNeutral(c, Times(c, m, p));
  }

  // Multiples depend on the factor modulo the order alone.
  lemma TimesIsModular<P(!new)>(c: Curve<P>, k: nat, p: P)
    requires IsGroup(c)
    ensures c.order > 0
    ensures Multiple(c, k, p) == Times(c, k, p)
  {
    hide IsGroup, Times;
    OrderKills(c, p);
    DivMod(k, c.order);
    TimesDropsOrders(c, k / c.order, k % c.order, p);
  }

  lemma ZeroMultiplesOfGenerator<P(!new)>(c: Curve<P>, k: nat)
    requires IsGroup(c)
    ensures c.order > 0
    ensures Multiple(c, k, c.g) == c.zero <==> k % c.order == 0
  {
    assert Times(c, 0, c.g) == c.zero;
    var m: nat := k % c.order;
    assert 0 < m ==> Times(c, m, c.g) != c.zero;
  }

  lemma TimesOne<P(!new)>(c: Curve<P>, p: P)
    requires IsGroup(c)
    ensures Times(c, 1, p) == p
  {
    hide IsGroup;
    ZeroIsNeutral(c, p);
    assert Times(c, 0, p) == c.zero;
  }

  // (x + m) + (p + y) is x + y when m + p is zero.
  lemma CancelInside<P(!new)>(c: Curve<P>, x: P, p: P, y: P)
    requires IsGroup(c)
    ensures c.add(c.add(x, c.neg(p)), c.add(p, y)) == c.add(x, y)
  {
    var m := c.neg(p);
    assert c.add(m, p) == c.zero;
    hide IsGroup;
    Associative(c, x, m, c.add(p, y));
    Associative(c, m, p, y);
    ZeroIsNeutral(c, y);
  }

  lemma {:induction false} TimesOfNegation<P(!new)>(c: Curve<P>, k: nat, p: P)
    requires IsGroup(c)
    ensures c.add(Times(c, k, c.neg(p)), Times(c, k, p)) == c.zero
  {
    hide IsGroup;
    if k == 0 {
      ZeroIsNeutral(c, c.zero);
    } else {
      TimesOfNegation(c, k - 1, p);
      TimesAdds(c, 1, k - 1, p);
      TimesOne(c, p);
      CancelInside(c, Times(c, k - 1, c.neg(p)), p, Times(c, k - 1, p));
    }
  }

  // Two left-and-right complements of one element are the same.
  lemma ComplementIsUnique<P(!new)>(c: Curve<P>, n: P, b: P, a: P)
    requires IsGroup(c) && c.add(n, b) == c.zero && c.add(b, a) == c.zero
    ensures n == a
  {
    hide IsGroup;
    Associative(c, n, b, a);
    ZeroIsNeutral(c, n);
    ZeroIsNeutral(c, a);
  }

  // Multiplying by a negative factor is multiplying the negated point by its magnitude.
  lemma NegativeFactor<P(!new)>(c: Curve<P>, k: int, p: P)
    requires IsGroup(c) && k <= 0
    ensures c.order > 0 && Multiple(c, k, p) == Times(c, -k, c.neg(p))
  {
    hide IsGroup, Times;
    OrderKills(c, p);
    var m: nat := k % c.order;
    var n: nat := -k;
    assert (n + m) % c.order == 0 by {
      NegationCompletes(k, c.order);
    }
    TimesIsModular(c, n + m, p);
    TimesNone(c, p);
    TimesAdds(c, n, m, p);
    TimesOfNegation(c, n, p);
    ComplementIsUnique(c, Times(c, n, c.neg(p)), Times(c, n, p), Times(c, m, p));
  }

  lemma TimesNone<P>(c: Curve<P>, p: P)
    ensures Times(c, 0, p) == c.zero
  {
  }

  lemma NegationCompletes(k: int, n: nat)
    requires n > 0 && k <= 0
    ensures (k % n - k) % n == 0
  {
    var q := k / n;
    assert k == q * n + k % n;
    if k <= 0 {
      MulCancel(0, 1 - q, n);
      RemainderIs(k % n - k, n, -q, 0);
    }
  }

  lemma MultipleIsZero<P(!new)>(c: Curve<P>, k: int, p: P)
    requires IsGroup(c) && c.order > 0 && (k % c.order == 0 || p == c.zero)
    ensures Multiple(c, k, p) == c.zero
  {
    hide IsGroup, Times;
    TimesOfZero(c, k % c.order);
    TimesNone(c, p);
  }

  lemma MultipleReduces<P>(c: Curve<P>, k: int, p: P)
    requires c.order > 0
    ensures Multiple(c, k % c.order, p) == Multiple(c, k, p)
  {
    hide Times;
    var m := k % c.order;
    if m % c.order != m {
      assert false;
    }
  }

  // left * P is one P if left is odd, and then half of left times 2P.
  lemma DoubleStep<P(!new)>(c: Curve<P>, left: nat, addend: P)
    requires IsGroup(c)
    ensures var half := Times(c, left / 2, c.add(addend, addend));
            Times(c, left, addend) == if left % 2 == 1 then c.add(addend, half) else half
  {
    hide IsGroup;
    TimesOne(c, addend);
    hide Times;
    TimesAdds(c, 1, 1, addend);
    TimesOfMultiple(c, left / 2, 2, addend);
    TimesAdds(c, left % 2, left / 2 * 2, addend);
    assert left == left % 2 + left / 2 * 2;
  }

  // Double-and-add computes the multiple for every integer factor.
  method ScalarMult<P(==,!new)>(c: Curve<P>, k: int, p: P) returns (r: P)
    requires IsGroup(c)
    ensures c.order > 0 && r == Multiple(c, k, p)
    decreases k < 0
  {
    hide IsGroup, Times, Multiple;
    OrderKills(c, p);
    if k % c.order == 0 || p == c.zero {
      MultipleIsZero(c, k, p);
      return c.zero;
    }
    if k < 0 {
      NegativeFactor(c, k, p);
      TimesIsModular(c, -k, c.neg(p));
      r := ScalarMult(c, -k, c.neg(p));
      return;
    }
    r := c.zero;
    var addend, left := p, k;
    ZeroIsNeutral(c, Times(c, k, p));
    while left > 0
      invariant left >= 0
      invariant c.add(r, Times(c, left, addend)) == Times(c, k, p)
      decreases left
    {
      DoubleStep(c, left, addend);
      if left % 2 == 1 {
        Associative(c, r, addend, Times(c, left / 2, c.add(addend, addend)));
        r := c.add(r, addend);
      }
      addend := c.add(addend, addend);
      left := left / 2;
    }
    TimesNone(c, addend);
    ZeroIsNeutral(c, r);
    TimesIsModular(c, k, p);
  }

  // ---- keys ----

  datatype KeyMaterial<P> = Secret(secret: nat) | Point(point: P)

  datatype HDKey<P> = HDKey(chainCode: Bytes, key: KeyMaterial<P>, depth: nat, parentFingerprint: Bytes,
                            childNumber: nat)

  datatype HDError = InvalidChild | HardenedFromPublic | InvalidPrivateKey | IndexTooWide

  function PointOf<P>(c: Curve<P>, k: HDKey<P>): P
    requires c.order > 0
  {
    match k.key
    case Secret(s) => Multiple(c, s, c.g)
    case Point(p) => p
  }

  function Neuter<P>(c: Curve<P>, k: HDKey<P>): HDKey<P>
    requires c.order > 0
  {
    k.(key := Point(PointOf(c, k)))
  }

  function Child<P>(c: Curve<P>, k: HDKey<P>, key: KeyMaterial<P>, chainCode: Bytes, index: nat): HDKey<P>
    requires c.order > 0
  {
    HDKey(chainCode, key, k.depth + 1, c.fingerprint(c.compress(PointOf(c, k))), index)
  }

  // A secret outside the range has no public key: unhardened derivation needs one for the
  // hash, hardened derivation for the fingerprint only.
  function DeriveSecret<P>(c: Curve<P>, k: HDKey<P>, secret: nat, index: nat): Result<HDKey<P>, HDError>
    requires c.order > 0
  {
    if index < HARDENED && !(0 < secret < c.order) then Err(InvalidPrivateKey)
    else if index >= INDEX_LIMIT then Err(IndexTooWide)
    else
      var data := if index >= HARDENED then Private(secret, index) else Public(c.compress(PointOf(c, k)), index);
      var (il, chainCode) := c.hmac(k.chainCode, data);
      if il >= c.order || (il + secret) % c.order == 0 then Err(InvalidChild)
      else if !(0 < secret < c.order) then Err(InvalidPrivateKey)
      else Ok(Child(c, k, Secret((il + secret) % c.order), chainCode, index))
  }

  function DerivePoint<P(==)>(c: Curve<P>, k: HDKey<P>, point: P, index: nat): Result<HDKey<P>, HDError>
    requires c.order > 0
  {
    if index >= HARDENED then Err(HardenedFromPublic)
    else
      var (il, chainCode) := c.hmac(k.chainCode, Public(c.compress(point), index));
      var childPoint := c.add(Multiple(c, il, c.g), point);
      if il >= c.order || childPoint == c.zero then Err(InvalidChild)
      else Ok(Child(c, k, Point(childPoint), chainCode, index))
  }

  function Derive<P(==)>(c: Curve<P>, k: HDKey<P>, index: nat): Result<HDKey<P>, HDError>
    requires c.order > 0
  {
    match k.key
    case Secret(secret) => DeriveSecret(c, k, secret, index)
    case Point(point) => DerivePoint(c, k, point, index)
  }

  // Deriving along the first `count` indexes of a path.
  function DeriveAlong<P(==)>(c: Curve<P>, k: HDKey<P>, path: seq<nat>, count: nat): Result<HDKey<P>, HDError>
    requires c.order > 0 && count <= |path|
  {
    if count == 0 then Ok(k)
    else
      match DeriveAlong(c, k, path, count - 1)
      case Err(e) => Err(e)
      case Ok(node) => Derive(c, node, path[count - 1])
  }

  lemma {:induction false} DeriveErrorIsFinal<P>(c: Curve<P>, k: HDKey<P>, path: seq<nat>, count: nat)
    requires c.order > 0 && count <= |path| && DeriveAlong(c, k, path, count).Err?
    ensures DeriveAlong(c, k, path, |path|) == DeriveAlong(c, k, path, count)
    decreases |path| - count
  {
    hide Derive;
    if count < |path| {
      DeriveErrorIsFinal(c, k, path, count + 1);
    }
  }

  method DerivePath<P(==)>(c: Curve<P>, k: HDKey<P>, path: seq<nat>) returns (r: Result<HDKey<P>, HDError>)
    requires c.order > 0
    ensures r == DeriveAlong(c, k, path, |path|)
  {
    hide Derive;
    var node := k;
    for i := 0 to |path|
      invariant DeriveAlong(c, k, path, i) == Ok(node)
    {
      var next := Derive(c, node, path[i]);
      if next.Err? {
        DeriveErrorIsFinal(c, k, path, i + 1);
        return next;
      }
      node := next.value;
    }
    return Ok(node);
  }

  // The first index is derived first: the rest of the path starts from its child.
  lemma {:induction false} FirstStepFirst<P>(c: Curve<P>, k: HDKey<P>, index: nat, rest: seq<nat>, count: nat)
    requires c.order > 0 && count <= |rest|
    ensures DeriveAlong(c, k, [index] + rest, count + 1) ==
            match Derive(c, k, index)
            case Err(e) => Err(e)
            case Ok(child) => DeriveAlong(c, child, rest, count)
  {
    hide Derive;
    if count == 0 {
      assert DeriveAlong(c, k, [index] + rest, 0) == Ok(k);
    } else {
      FirstStepFirst(c, k, index, rest, count - 1);
      assert ([index] + rest)[count] == rest[count - 1];
    }
  }

  // ---- what a step hashes and what its child says ----

  // A child is one deeper, numbered by its index, with the hash's chain code and its parent's
  // fingerprint; a private child's secret is the parent's plus the hash, in range and never zero.
  lemma ChildOfSecret<P>(c: Curve<P>, k: HDKey<P>, index: nat, il: nat, chainCode: Bytes)
    requires c.order > 0 && k.key.Secret? && Derive(c, k, index).Ok?
    requires (il, chainCode) ==
             c.hmac(k.chainCode,
                    if index >= 0x8000_0000 then Private(k.key.secret, index)
                    else Public(c.compress(Multiple(c, k.key.secret, c.g)), index))
    ensures index < 0x1_0000_0000 && il < c.order && 0 < k.key.secret < c.order
    ensures var child := Derive(c, k, index).value;
            && child.key == Secret((il + k.key.secret) % c.order) && child.key.secret > 0
            && child.chainCode == chainCode && child.depth == k.depth + 1 && child.childNumber == index
            && child.parentFingerprint == c.fingerprint(c.compress(Multiple(c, k.key.secret, c.g)))
  {
    hide Multiple;
  }

  lemma ChildOfPoint<P>(c: Curve<P>, k: HDKey<P>, index: nat, il: nat, chainCode: Bytes)
    requires c.order > 0 && k.key.Point? && Derive(c, k, index).Ok?
    requires (il, chainCode) == c.hmac(k.chainCode, Public(c.compress(k.key.point), index))
    ensures index < 0x8000_0000 && il < c.order
    ensures var child := Derive(c, k, index).value;
            && child.key == Point(c.add(Multiple(c, il, c.g), k.key.point)) && child.key.point != c.zero
            && child.chainCode == chainCode && child.depth == k.depth + 1 && child.childNumber == index
            && child.parentFingerprint == c.fingerprint(c.compress(k.key.point))
  {
    hide Multiple;
  }

  // A hardened step depends on the secret's hash alone: who knows every hash of public data
  // learns nothing about it.
  lemma HardenedHashesTheSecret<P>(c: Curve<P>, d: Curve<P>, k: HDKey<P>, index: nat)
    requires c.order > 0 && d == c.(hmac := d.hmac) && k.key.Secret? && index >= HARDENED
    requires forall chainCode, secret, i ::
               c.hmac(chainCode, Private(secret, i)) == d.hmac(chainCode, Private(secret, i))
    ensures Derive(c, k, index) == Derive(d, k, index)
  {
    SameMultiples(c, d, k.key.secret, c.g);
    hide Multiple;
  }

  // An unhardened step depends on the hash of public data alone, so a watcher can follow it.
  lemma UnhardenedHashesThePoint<P>(c: Curve<P>, d: Curve<P>, k: HDKey<P>, index: nat)
    requires c.order > 0 && d == c.(hmac := d.hmac) && k.key.Secret? && index < HARDENED
    requires forall chainCode, key, i ::
               c.hmac(chainCode, Public(key, i)) == d.hmac(chainCode, Public(key, i))
    ensures Derive(c, k, index) == Derive(d, k, index)
  {
    SameMultiples(c, d, k.key.secret, c.g);
    hide Multiple;
  }

  lemma SameMultiples<P>(c: Curve<P>, d: Curve<P>, k: nat, p: P)
    requires c.order > 0 && d == c.(hmac := d.hmac)
    ensures Multiple(c, k, p) == Multiple(d, k, p)
  {
    SameTimes(c, d, k % c.order, p);
  }

  lemma {:induction false} SameTimes<P>(c: Curve<P>, d: Curve<P>, k: nat, p: P)
    requires d == c.(hmac := d.hmac)
    ensures Times(c, k, p) == Times(d, k, p)
  {
    if k > 0 {
      SameTimes(c, d, k - 1, p);
    }
  }

  // ---- watching a branch ----

  // A private node whose secret is in range.
  ghost predicate IsPrivate<P>(c: Curve<P>, k: HDKey<P>) {
    k.key.Secret? && 0 < k.key.secret < c.order
  }

  // What one derivation gives on the private side matches what it gives on the public side:
  // the same error, or a private child whose neutered form is the public child.
  ghost predicate SidesAgree<P>(c: Curve<P>, secret: Result<HDKey<P>, HDError>, public_: Result<HDKey<P>, HDError>)
    requires c.order > 0
  {
    match secret
    case Err(e) => public_ == Err(e)
    case Ok(child) => IsPrivate(c, child) && public_ == Ok(Neuter(c, child))
  }

  // The point of the sum of a tweak and a secret is the sum of their points.
  lemma TweakedPoint<P(!new)>(c: Curve<P>, il: nat, secret: nat)
    requires IsGroup(c)
    ensures c.order > 1
    ensures var sum := c.add(Multiple(c, il, c.g), Multiple(c, secret, c.g));
            && sum == Multiple(c, (il + secret) % c.order, c.g)
            && (sum == c.zero <==> (il + secret) % c.order == 0)
  {
    hide IsGroup, Times, Multiple;
    OrderKills(c, c.g);
    TimesAdds(c, il, secret, c.g);
    TimesIsModular(c, il, c.g);
    TimesIsModular(c, secret, c.g);
    TimesIsModular(c, il + secret, c.g);
    ZeroMultiplesOfGenerator(c, il + secret);
    MultipleReduces(c, il + secret, c.g);
  }

  // One unhardened step: public derivation from the neutered parent gives the neutered
  // private child, and fails on exactly the same indexes.
  lemma DeriveCommutes<P(!new)>(c: Curve<P>, k: HDKey<P>, index: nat)
    requires IsGroup(c) && IsPrivate(c, k) && index < HARDENED
    ensures c.order > 0 && SidesAgree(c, Derive(c, k, index), Derive(c, Neuter(c, k), index))
  {
    var secret := k.key.secret;
    var (il, _) := c.hmac(k.chainCode, Public(c.compress(PointOf(c, k)), index));
    TweakedPoint(c, il, secret);
    hide IsGroup, Multiple;
  }

  // Along any unhardened path, deriving then neutering is neutering then deriving.
  lemma {:induction false} DerivePathCommutes<P(!new)>(c: Curve<P>, k: HDKey<P>, path: seq<nat>, count: nat)
    requires IsGroup(c) && IsPrivate(c, k) && count <= |path|
    requires forall i :: 0 <= i < count ==> path[i] < HARDENED
    ensures c.order > 0 && SidesAgree(c, DeriveAlong(c, k, path, count), DeriveAlong(c, Neuter(c, k), path, count))
  {
    hide IsGroup, Derive;
    OrderKills(c, c.g);
    if count > 0 {
      DerivePathCommutes(c, k, path, count - 1);
      if DeriveAlong(c, k, path, count - 1).Ok? {
        DeriveCommutes(c, DeriveAlong(c, k, path, count - 1).value, path[count - 1]);
      }
    }
  }

  // A path with a hardened step never derives from a neutered node, and fails there unless
  // an earlier step failed.
  lemma {:induction false} HardenedNeedsTheSecret<P(!new)>(c: Curve<P>, k: HDKey<P>, path: seq<nat>, count: nat)
    requires c.order > 0 && count <= |path| && k.key.Point?
    requires exists i :: 0 <= i < count && path[i] >= HARDENED
    ensures DeriveAlong(c, k, path, count).Err?
  {
    hide DerivePoint, DeriveSecret;
    var i :| 0 <= i < count && path[i] >= HARDENED;
    if i < count - 1 {
      HardenedNeedsTheSecret(c, k, path, count - 1);
    } else if DeriveAlong(c, k, path, i).Ok? {
      PointStaysPoint(c, k, path, i);
      HardenedFails(c, DeriveAlong(c, k, path, i).value, path[i]);
    }
  }

  lemma HardenedFails<P>(c: Curve<P>, k: HDKey<P>, index: nat)
    requires c.order > 0 && k.key.Point? && index >= HARDENED
    ensures Derive(c, k, index) == Err(HardenedFromPublic)
  {
  }

  lemma {:induction false} PointStaysPoint<P>(c: Curve<P>, k: HDKey<P>, path: seq<nat>, count: nat)
    requires c.order > 0 && count <= |path| && k.key.Point? && DeriveAlong(c, k, path, count).Ok?
    ensures DeriveAlong(c, k, path, count).value.key.Point?
  {
    if count > 0 {
      PointStaysPoint(c, k, path, count - 1);
    }
  }
}
