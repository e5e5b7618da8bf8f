/** The query layer of `lib/solutions.js`: first-match lookup by slug and
    resolution of slug lists against a collection. */
module Lookup {
  import opened Wrappers
  import opened Seqs
  import opened Content

  /** The slugs of `records`, in order. */
  function Keys<T>(records: seq<T>, slugOf: T -> Slug): (r: seq<Slug>)
    ensures |r| == |records|
    ensures forall i :: 0 <= i < |r| ==> r[i] == slugOf(records[i])
  {
    seq(|records|, i requires 0 <= i < |records| => slugOf(records[i]))
  }

  /** `collection.find((x) => x.slug === slug) || null`. */
  function FindBySlug<T>(collection: seq<T>, slugOf: T -> Slug, slug: Slug): (r: Option<T>)
    ensures r.None? <==> slug !in Keys(collection, slugOf)
    ensures r.Some? ==> slugOf(r.value) == slug
    ensures r.Some? ==> exists i :: 0 <= i < |collection| && collection[i] == r.value &&
                                    forall j :: 0 <= j < i ==> slugOf(collection[j]) != slug
  {
    var keys := Keys(collection, slugOf);
    assert forall j :: 0 <= j < |collection| ==> keys[j] == slugOf(collection[j]);
    Find(collection, (x: T) => slugOf(x) == slug)
  }

  /** When slugs are unique, the lookup returns the one record carrying it. */
  lemma FindUnique<T>(collection: seq<T>, slugOf: T -> Slug, i: nat)
    requires i < |collection|
    requires NoDuplicates(Keys(collection, slugOf))
    ensures FindBySlug(collection, slugOf, slugOf(collection[i])) == Some(collection[i])
  {
    var keys := Keys(collection, slugOf);
    assert keys[i] == slugOf(collection[i]);
  }

  /** `slugs.map((s) => collection.find(...)).filter(Boolean)`: each slug is
      looked up and the misses are dropped. */
  function Resolve<T>(slugs: seq<Slug>, collection: seq<T>, slugOf: T -> Slug): (r: seq<T>)
    ensures |r| <= |slugs|
    ensures forall i :: 0 <= i < |r| ==>
              FindBySlug(collection, slugOf, slugOf(r[i])) == Some(r[i])
    ensures forall i :: 0 <= i < |r| ==> r[i] in collection
  {
    if |slugs| == 0 then []
    else
      var rest := Resolve(slugs[1..], collection, slugOf);
      match FindBySlug(collection, slugOf, slugs[0])
      case None => rest
      case Some(x) => [x] + rest
  }

  lemma KeysCons<T>(x: T, rest: seq<T>, slugOf: T -> Slug)
    ensures Keys([x] + rest, slugOf) == [slugOf(x)] + Keys(rest, slugOf)
  {
    var l, r := Keys([x] + rest, slugOf), [slugOf(x)] + Keys(rest, slugOf);
    forall i | 0 <= i < |l| ensures l[i] == r[i] {
      if i > 0 {
        assert ([x] + rest)[i] == rest[i - 1];
      }
    }
  }

  /** One step of the resolution: the first slug survives exactly when it
      names a record. */
  lemma ResolveStep<T>(slugs: seq<Slug>, collection: seq<T>, slugOf: T -> Slug)
    requires |slugs| > 0
    ensures Keys(Resolve(slugs, collection, slugOf), slugOf) ==
            (if slugs[0] in Keys(collection, slugOf) then [slugs[0]] else []) +
            Keys(Resolve(slugs[1..], collection, slugOf), slugOf)
  {
    var rest := Resolve(slugs[1..], collection, slugOf);
    var found := FindBySlug(collection, slugOf, slugs[0]);
    if found.Some? {
      assert Resolve(slugs, collection, slugOf) == [found.value] + rest;
      KeysCons(found.value, rest, slugOf);
    } else {
      assert Resolve(slugs, collection, slugOf) == rest;
      assert [] + Keys(rest, slugOf) == Keys(rest, slugOf);
    }
  }

  lemma {:induction false} ResolveKeysOrder<T>(slugs: seq<Slug>, collection: seq<T>, slugOf: T -> Slug)
    ensures IsSubsequence(Keys(Resolve(slugs, collection, slugOf), slugOf), slugs)
  {
    if |slugs| > 0 {
      ResolveKeysOrder(slugs[1..], collection, slugOf);
      ResolveStep(slugs, collection, slugOf);
      var k := Keys(Resolve(slugs[1..], collection, slugOf), slugOf);
      if slugs[0] in Keys(collection, slugOf) {
        assert ([slugs[0]] + k)[1..] == k;
      } else {
        assert [] + k == k;
      }
    }
  }

  lemma {:induction false} ResolveKeysCount<T>(slugs: seq<Slug>, collection: seq<T>, slugOf: T -> Slug, x: Slug)
    ensures multiset(Keys(Resolve(slugs, collection, slugOf), slugOf))[x] ==
            if x in Keys(collection, slugOf) then multiset(slugs)[x] else 0
  {
    if |slugs| > 0 {
      ResolveKeysCount(slugs[1..], collection, slugOf, x);
      ResolveStep(slugs, collection, slugOf);
      var head: seq<Slug> := if slugs[0] in Keys(collection, slugOf) then [slugs[0]] else [];
      var k := Keys(Resolve(slugs[1..], collection, slugOf), slugOf);
      assert multiset(head + k) == multiset(head) + multiset(k);
      assert slugs == [slugs[0]] + slugs[1..];
      assert multiset(slugs) == multiset([slugs[0]]) + multiset(slugs[1..]);
    }
  }

  /** The slugs of the resolved records are the requested slugs, in the
      requested order, with exactly the dangling ones removed: a slug that
      names a record keeps all its occurrences (duplicates and
      self-references included), a dangling slug keeps none. */
  lemma ResolveKeys<T>(slugs: seq<Slug>, collection: seq<T>, slugOf: T -> Slug)
    ensures IsSubsequence(Keys(Resolve(slugs, collection, slugOf), slugOf), slugs)
    ensures forall x :: multiset(Keys(Resolve(slugs, collection, slugOf), slugOf))[x] ==
              if x in Keys(collection, slugOf) then multiset(slugs)[x] else 0
  {
    ResolveKeysOrder(slugs, collection, slugOf);
    forall x {
      ResolveKeysCount(slugs, collection, slugOf, x);
    }
  }
}
