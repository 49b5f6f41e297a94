/** Get SEL Entry and the walk along its next-record IDs. */
module SelWalk {
  import opened Bytes
  import opened SelRecord
  import opened OrderedKeys

  const FIRST_ENTRY: word := 0x0000
  const LAST_ENTRY: word := 0xFFFF
  const ENTIRE_RECORD: byte := 0xFF
  const SEL_RECORD_SIZE := 16
  const ID_BOUND := 0x1_0000

  type SelCacheMap = map<word, Record>

  function Keys(cache: SelCacheMap): (keys: set<int>)
    ensures forall k | k in keys :: 0 <= k < ID_BOUND
  {
    cache.Keys
  }

  function KeyOf(found: Option<nat>): (r: Option<word>)
    requires found.Some? ==> found.value < ID_BOUND
  {
    match found case None => None case Some(k) => Some(k)
  }

  /** Which entry a requested record ID names. */
  function Target(cache: SelCacheMap, id: word): (r: Option<word>)
    ensures r.Some? ==> r.value in cache
  {
    if id == FIRST_ENTRY then KeyOf(FirstFrom(Keys(cache), 0, ID_BOUND))
    else if id == LAST_ENTRY then KeyOf(LastBelow(Keys(cache), ID_BOUND))
    else if id in cache then Some(id) else None
  }

  /** 0000h names the least entry, FFFFh the greatest, any other ID the entry of that ID. */
  lemma TargetMeaning(cache: SelCacheMap, id: word)
    ensures Target(cache, id) == None
        <==> if id == FIRST_ENTRY || id == LAST_ENTRY then cache == map[] else id !in cache
    ensures Target(cache, id).Some? ==>
              var key := Target(cache, id).value;
              && key in cache
              && (id == FIRST_ENTRY ==> forall k | k in cache :: key <= k)
              && (id == LAST_ENTRY ==> forall k | k in cache :: k <= key)
              && (id != FIRST_ENTRY && id != LAST_ENTRY ==> key == id)
  {
    FirstIsLeast(Keys(cache), 0, ID_BOUND);
    LastIsGreatest(Keys(cache), ID_BOUND);
    forall k: word ensures k in cache <==> k as int in Keys(cache) {}
    if cache != map[] {
      var some :| some in cache;
      assert some as int in Keys(cache);
    }
  }

  function NextRecordID(cache: SelCacheMap, key: word): (r: word) {
    match FirstFrom(Keys(cache), key as int + 1, ID_BOUND)
    case None => LAST_ENTRY
    case Some(next) => next
  }

  /** The entry and next-record ID that a Get SEL Entry for `id` answers with, if it succeeds. */
  function Fetched(cache: SelCacheMap, id: word): (r: Option<(word, word)>) {
    match Target(cache, id)
    case None => None
    case Some(key) => Some((key, NextRecordID(cache, key)))
  }

  /** A host's walk: fetch `id`, go on with the next-record ID, stop at 0xFFFF. `fuel` bounds the fetches. */
  function Walk(cache: SelCacheMap, id: word, fuel: nat): (r: seq<word>)
    decreases fuel, cache
  {
    if fuel == 0 then []
    else
      match Fetched(cache, id)
      case None => []
      case Some((key, next)) => [key] + if next == LAST_ENTRY then [] else Walk(cache, next, fuel - 1)
  }

  lemma {:induction false} WalkFromKey(cache: SelCacheMap, id: word, fuel: nat)
    requires id in cache && id != FIRST_ENTRY && id != LAST_ENTRY
    requires LAST_ENTRY !in cache && fuel >= ID_BOUND - id
    ensures Walk(cache, id, fuel) == Ascending(Keys(cache), id, ID_BOUND)
    decreases fuel
  {
    assert FirstFrom(Keys(cache), id, ID_BOUND) == Some(id as int);
    match FirstFrom(Keys(cache), id as int + 1, ID_BOUND) {
      case None =>
      case Some(next) => WalkFromKey(cache, next, fuel - 1);
        assert Ascending(Keys(cache), id as int + 1, ID_BOUND) == Ascending(Keys(cache), next, ID_BOUND);
    }
  }

  lemma WalkIsIteration(cache: SelCacheMap)
    requires cache != map[] && LAST_ENTRY !in cache
    ensures Walk(cache, FIRST_ENTRY, ID_BOUND) == Ascending(Keys(cache), 0, ID_BOUND)
  {
    var keys := Keys(cache);
    FirstIsLeast(keys, 0, ID_BOUND);
    var some :| some in cache;
    assert some as int in keys;
    var first := FirstFrom(keys, 0, ID_BOUND).value;
    match FirstFrom(keys, first + 1, ID_BOUND) {
      case None =>
      case Some(next) =>
        WalkFromKey(cache, next, ID_BOUND - 1);
        assert Ascending(keys, first + 1, ID_BOUND) == Ascending(keys, next, ID_BOUND);
    }
  }

  /** Starting at 0x0000 the walk visits every entry exactly once, in ascending order, in as many steps as
      there are entries. */
  lemma WalkVisitsAll(cache: SelCacheMap)
    requires cache != map[] && LAST_ENTRY !in cache
    ensures var walk := Walk(cache, FIRST_ENTRY, ID_BOUND);
            && StrictlyAscending(walk)
            && (forall id: word :: id in walk <==> id in cache)
            && |walk| == |cache| < ID_BOUND
  {
    var keys := Keys(cache);
    WalkIsIteration(cache);
    IterationVisitsAll(cache);
    WalkLength(keys, ID_BOUND);
    LastIdUnused(cache);
  }

  lemma LastIdUnused(cache: SelCacheMap)
    requires LAST_ENTRY !in cache
    ensures |cache| < ID_BOUND
  {
    forall k | k in Keys(cache) ensures k < 0xFFFF {
      assert k != LAST_ENTRY as int;
    }
    CountBounded(Keys(cache), 0xFFFF);
  }

  lemma IterationVisitsAll(cache: SelCacheMap)
    ensures StrictlyAscending(Ascending(Keys(cache), 0, ID_BOUND))
    ensures forall id: word :: id in Ascending(Keys(cache), 0, ID_BOUND) <==> id in cache
  {
    var list := Ascending(Keys(cache), 0, ID_BOUND);
    AscendingMeaning(Keys(cache), 0, ID_BOUND);
    forall id: word ensures id in list <==> id in cache {
      assert id as int in Keys(cache) <==> id in cache;
    }
  }

  /** An entry with the reserved ID 0xFFFF ends the walk early, so the exact condition is that there is none,
      or nothing else. */
  lemma WalkCompleteExactlyIf(cache: SelCacheMap)
    requires cache != map[]
    ensures (forall id: word :: id in cache ==> id in Walk(cache, FIRST_ENTRY, ID_BOUND))
       <==> (LAST_ENTRY !in cache || |cache| == 1)
  {
    if LAST_ENTRY !in cache {
      WalkVisitsAll(cache);
    } else {
      var keys := Keys(cache);
      assert LAST_ENTRY as int in keys;
      FirstIsLeast(keys, 0, ID_BOUND);
      var first: word := FirstFrom(keys, 0, ID_BOUND).value;
      if |cache| == 1 {
        OnlyOne(cache.Keys, LAST_ENTRY);
      } else {
        assert first != LAST_ENTRY by { if first == LAST_ENTRY { AllLast(cache); } }
        FirstIsLeast(keys, first as int + 1, ID_BOUND);
        var next: word := FirstFrom(keys, first as int + 1, ID_BOUND).value;
        if next != LAST_ENTRY {
          LastNeverVisited(cache, next, ID_BOUND - 1);
        }
        assert LAST_ENTRY !in Walk(cache, FIRST_ENTRY, ID_BOUND);
      }
    }
  }

  lemma OnlyOne(ids: set<word>, id: word)
    requires |ids| == 1 && id in ids
    ensures ids == {id}
  {
    assert |ids - {id}| == 0;
  }

  lemma AllLast(cache: SelCacheMap)
    requires LAST_ENTRY in cache && FirstFrom(Keys(cache), 0, ID_BOUND) == Some(LAST_ENTRY as int)
    ensures |cache| == 1
  {
    FirstIsLeast(Keys(cache), 0, ID_BOUND);
    forall id: word | id in cache ensures id == LAST_ENTRY {
      assert id as int in Keys(cache);
    }
    assert cache.Keys == {LAST_ENTRY};
  }

  lemma {:induction false} LastNeverVisited(cache: SelCacheMap, id: word, fuel: nat)
    requires id in cache && id != FIRST_ENTRY && id != LAST_ENTRY
    ensures LAST_ENTRY !in Walk(cache, id, fuel)
    decreases fuel
  {
    if fuel > 0 {
      var next := NextRecordID(cache, id);
      if next != LAST_ENTRY {
        LastNeverVisited(cache, next, fuel - 1);
      }
    }
  }
}
