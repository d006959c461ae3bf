/**
 * The skill index and its embedding cache (packages/core/src/router.ts, buildIndex). Hashing and
 * embedding are functions of a skill's text; the cache file and the cache being written share
 * their table of skills.
 */
module EmbeddingIndex {
  import opened Prelude
  import opened WorkerPool

  datatype Skill = Skill(name: string, text: string)
  type Vector = seq<real>
  datatype CacheEntry = CacheEntry(hash: string, embedding: Vector)
  type Cache = map<string, CacheEntry>
  datatype IndexEntry = IndexEntry(skill: Skill, embedding: Vector)

  /** Different texts among those that ever met the cache have different hashes; elsewhere the hash may collide. */
  ghost predicate CollisionFree(hash: string -> string, texts: set<string>) {
    forall s, t :: s in texts && t in texts && hash(s) == hash(t) ==> s == t
  }

  /** The entry is the embedding of one of the texts, under its hash. */
  ghost predicate IsOf(entry: CacheEntry, hash: string -> string, embed: string -> Vector, text: string) {
    entry == CacheEntry(hash(text), embed(text))
  }

  /** Every cached embedding is that of one of the texts. */
  ghost predicate Honest(cache: Cache, hash: string -> string, embed: string -> Vector, texts: set<string>) {
    forall name :: name in cache ==> exists t :: t in texts && IsOf(cache[name], hash, embed, t)
  }

  ghost predicate AllAmong(skills: seq<Skill>, texts: set<string>) {
    forall i :: 0 <= i < |skills| ==> skills[i].text in texts
  }

  /** getCachedEmbedding */
  function Cached(cache: Cache, hash: string -> string, skill: Skill): Option<Vector> {
    if skill.name in cache && cache[skill.name].hash == hash(skill.text) then Some(cache[skill.name].embedding)
      else None
  }

  lemma CachedIsEmbedding(cache: Cache, hash: string -> string, embed: string -> Vector, texts: set<string>,
                          skill: Skill)
    requires CollisionFree(hash, texts) && Honest(cache, hash, embed, texts)
    requires skill.text in texts && Cached(cache, hash, skill).Some?
    ensures Cached(cache, hash, skill).value == embed(skill.text)
  {
    var t :| t in texts && IsOf(cache[skill.name], hash, embed, t);
    assert t == skill.text;
  }

  lemma WrittenIsHonest(cache: Cache, hash: string -> string, embed: string -> Vector, texts: set<string>, skill: Skill)
    requires Honest(cache, hash, embed, texts) && skill.text in texts
    ensures Honest(cache[skill.name := CacheEntry(hash(skill.text), embed(skill.text))], hash, embed, texts)
  {
    var after := cache[skill.name := CacheEntry(hash(skill.text), embed(skill.text))];
    forall name | name in after ensures exists t :: t in texts && IsOf(after[name], hash, embed, t) {
      if name == skill.name { assert IsOf(after[name], hash, embed, skill.text); }
    }
  }

  /** A hash with a collision serves an embedding of another text, however honest the cache. */
  lemma CollisionIsServed(hash: string -> string, embed: string -> Vector, name: string, s: string, t: string)
    requires hash(s) == hash(t) && embed(s) != embed(t)
    ensures var cache := map[name := CacheEntry(hash(s), embed(s))];
      && Honest(cache, hash, embed, {s, t})
      && Cached(cache, hash, Skill(name, t)) == Some(embed(s)) != Some(embed(t))
  {
    assert IsOf(CacheEntry(hash(s), embed(s)), hash, embed, s);
  }

  /** What an index may hold for a skill: its embedding, or nothing when the embedder failed. */
  predicate Fits(entry: IndexEntry, skill: Skill, embed: string -> Vector, failed: bool) {
    entry.skill == skill && (entry.embedding == embed(skill.text) || (failed && entry.embedding == []))
  }

  class Builder {
    const skills: seq<Skill>
    const hash: string -> string
    const embed: string -> Vector
    const fails: nat -> bool
    ghost const texts: set<string>
    var entries: seq<Option<IndexEntry>>
    var cache: Cache
    var nextIdx: nat
    var workers: seq<Worker>
    ghost var filled: seq<bool>

    ghost predicate Valid()
      reads this
    {
      && CollisionFree(hash, texts) && Honest(cache, hash, embed, texts) && AllAmong(skills, texts)
      && |entries| == |filled| == |skills| && Claims(workers, nextIdx, filled)
      && forall i :: 0 <= i < |filled| && filled[i] ==>
        entries[i].Some? && Fits(entries[i].value, skills[i], embed, fails(i))
    }

    constructor (skills: seq<Skill>, cache: Cache, hash: string -> string, embed: string -> Vector, fails: nat -> bool,
                 concurrency: nat,
                 ghost texts: set<string>)
      requires CollisionFree(hash, texts) && Honest(cache, hash, embed, texts) && AllAmong(skills, texts)
      ensures Valid() && this.skills == skills && this.hash == hash && this.embed == embed && this.fails == fails
        && this.texts == texts
      ensures nextIdx == 0 && |workers| == concurrency
    {
      this.skills, this.hash, this.embed, this.fails, this.texts := skills, hash, embed, fails, texts;
      this.cache, entries := cache, seq(|skills|, _ => None);
      nextIdx, workers := 0, seq(concurrency, _ => AtLoop);
      filled := seq(|skills|, _ => false);
      NothingClaimed(concurrency, |skills|);
    }

    /** A worker goes on until it awaits an embedding or leaves its loop; a cached skill costs no await. */
    method Step(w: nat)
      requires Valid() && w < |workers| && !workers[w].Finished?
      modifies this
      ensures Valid() && nextIdx >= old(nextIdx) && |workers| == old(|workers|)
      ensures Work(workers, nextIdx, |skills|) < Work(old(workers), old(nextIdx), |skills|)
    {
      hide Claims, Distances, AllFinished, Honest, CollisionFree, AllAmong, Cached;
      match workers[w] {
        case Busy(idx) =>
          ClaimIsOpen(workers, nextIdx, filled, w);
          DistancesAfter(workers, w, AtLoop);
          Stored(workers, nextIdx, filled, w);
          Store(idx);
          workers := workers[w := AtLoop];
        case AtLoop =>
          CounterInRange(workers, nextIdx, filled);
          if nextIdx < |skills| {
            Claimed(workers, nextIdx, filled, w);
            DistancesAfter(workers, w, Busy(nextIdx));
            Claim(w);
          } else {
            Exited(workers, nextIdx, filled, w);
            DistancesAfter(workers, w, Finished);
            workers := workers[w := Finished];
          }
      }
    }

    /** The claim of an index, and the entry at once when it is cached. */
    method Claim(w: nat)
      requires Valid() && w < |workers| && workers[w].AtLoop? && nextIdx < |skills|
      requires Claims(workers[w := Busy(nextIdx)], nextIdx + 1, filled)
      requires Distances(workers[w := Busy(nextIdx)]) == Distances(workers) + 1
      modifies this
      ensures Valid() && nextIdx == old(nextIdx) + 1 && |workers| == old(|workers|)
      ensures Work(workers, nextIdx, |skills|) < Work(old(workers), old(nextIdx), |skills|)
    {
      hide Claims, Distances, Honest, CollisionFree, Cached;
      var idx := nextIdx;
      var cached := Cached(cache, hash, skills[idx]);
      var busy := workers[w := Busy(idx)];
      nextIdx := nextIdx + 1;
      if cached.Some? {
        CachedIsEmbedding(cache, hash, embed, texts, skills[idx]);
        Stored(busy, nextIdx, filled, w);
        assert busy[w := AtLoop] == workers;
        entries, filled := entries[idx := Some(IndexEntry(skills[idx], cached.value))], filled[idx := true];
      } else {
        workers := busy;
      }
    }

    /** The statements after the await: the entry, and the shared cache when the embedder succeeded. */
    method Store(idx: nat)
      requires Valid() && idx < |skills|
      modifies this`entries, this`cache, this`filled
      ensures Honest(cache, hash, embed, texts) && |entries| == |skills| && filled == old(filled)[idx := true]
      ensures forall i :: 0 <= i < |skills| && filled[i] ==>
        entries[i].Some? && Fits(entries[i].value, skills[i], embed, fails(i))
    {
      hide Claims, Honest;
      var skill := skills[idx];
      filled := filled[idx := true];
      if fails(idx) {
        entries := entries[idx := Some(IndexEntry(skill, []))];
      } else {
        entries := entries[idx := Some(IndexEntry(skill, embed(skill.text)))];
        WrittenIsHonest(cache, hash, embed, texts, skill);
        cache := cache[skill.name := CacheEntry(hash(skill.text), embed(skill.text))];
      }
    }
  }

  function Uncached(skills: seq<Skill>, embed: string -> Vector): (r: seq<IndexEntry>)
    ensures |r| == |skills|
  {
    seq(|skills|, i requires 0 <= i < |skills| => IndexEntry(skills[i], embed(skills[i].text)))
  }

  /**
   * buildIndex under any schedule: the index is complete and in order, and when the embedder does
   * not fail it is the one that would have been built without a cache. The cache stays honest. The
   * texts are those of the skills and those the cache was filled from.
   */
  method BuildIndex(skills: seq<Skill>, cache: Cache, hash: string -> string, embed: string -> Vector,
                    fails: nat -> bool,
                    concurrency: nat, schedule: nat -> nat, ghost texts: set<string>) returns (index: seq<IndexEntry>,
                      saved: Cache)
    requires CollisionFree(hash, texts) && Honest(cache, hash, embed, texts) && AllAmong(skills, texts)
      && concurrency > 0
    ensures |index| == |skills| && forall i :: 0 <= i < |skills| ==> Fits(index[i], skills[i], embed, fails(i))
    ensures (forall i :: 0 <= i < |skills| ==> !fails(i)) ==> index == Uncached(skills, embed)
    ensures Honest(saved, hash, embed, texts)
  {
    hide Honest, CollisionFree, AllAmong;
    var b := new Builder(skills, cache, hash, embed, fails, concurrency, texts);
    var time := 0;
    while !AllFinished(b.workers)
      invariant b.Valid() && fresh(b) && |b.workers| == concurrency && b.nextIdx <= |skills|
      invariant b.skills == skills && b.hash == hash && b.embed == embed && b.fails == fails && b.texts == texts
      decreases Work(b.workers, b.nextIdx, |skills|)
    {
      WorkIsPositive(b.workers, b.nextIdx, |skills|);
      b.Step(Pick(b.workers, schedule(time)));
      time := time + 1;
    }
    AllAreFilled(b.workers, b.nextIdx, b.filled);
    assert forall i :: 0 <= i < |skills| ==> b.filled[i];
    index := seq(|skills|, i requires 0 <= i < |skills| && |b.entries| == |skills|
      && b.entries[i].Some? reads b => b.entries[i].value);
    saved := b.cache;
  }
}
