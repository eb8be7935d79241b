/**
 * DiffServer (src/main/java/com/readytalk/revori/subscribe/DiffServer.java):
 * keeps the revisions that some tag still refers to, in the order they were
 * produced.  Every revision the server publishes is wrapped with the next
 * sequence number; a revision stays in `revisions` while at least one tag
 * holds it.  Here a wrapped revision is identified by its sequence number,
 * and its reference count lives in the server's `refCount` map.
 */
module DiffServers {
  import opened Wire

  /** What a tag names: the distinguished `Head` tag or a client key. */
  datatype Tag = Head | Key(key: int)

  /** The revision a wrapped revision carries: the empty one, or a head the server produced. */
  datatype Snapshot = EmptyRevision | ServerHead(id: int)

  datatype LinearRevision = LinearRevision(revision: Snapshot, sequenceNumber: int)

  /** The tags that hold sequence number `s`. */
  function TagsOf(tags: map<Tag, int>, s: int): set<Tag>
  {
    set t | t in tags && tags[t] == s
  }

  /** Pointing `key` at `v` moves one holder from the old revision of `key` to `v`. */
  lemma TagsAfterPut(tags: map<Tag, int>, key: Tag, v: int, s: int)
    ensures |TagsOf(tags[key := v], s)| ==
      |TagsOf(tags, s)| + (if v == s then 1 else 0) - (if key in tags && tags[key] == s then 1 else 0)
  {
    var others := TagsOf(tags - {key}, s);
    TagsAfterRemove(tags, key, s);
    var after := TagsOf(tags[key := v], s);
    if v == s {
      assert after == others + {key};
      assert key !in others;
    } else {
      assert after == others;
    }
  }

  /** Dropping `key` loses its one holder. */
  lemma TagsAfterRemove(tags: map<Tag, int>, key: Tag, s: int)
    ensures |TagsOf(tags - {key}, s)| == |TagsOf(tags, s)| - (if key in tags && tags[key] == s then 1 else 0)
  {
    var before := TagsOf(tags, s);
    assert TagsOf(tags - {key}, s) == before - {key};
    if key in tags && tags[key] == s {
      assert before == (before - {key}) + {key};
    } else {
      assert before - {key} == before;
    }
  }

  /** Every counted revision is counted once per tag that holds it. */
  ghost predicate CountsMatch(tags: map<Tag, int>, refCount: map<int, int>)
  {
    forall s :: s in refCount ==> refCount[s] == |TagsOf(tags, s)|
  }

  /** The counts after `key` takes `h`: one more for `h`, one fewer for what `key` held. */
  function Retagged(tags: map<Tag, int>, refCount: map<int, int>, key: Tag, h: int): map<int, int>
    requires h in refCount && (key in tags ==> tags[key] in refCount)
  {
    var up := refCount[h := refCount[h] + 1];
    if key in tags then up[tags[key] := up[tags[key]] - 1] else up
  }

  /** Retagging keeps the counts in step with the tags. */
  lemma RetagCounts(tags: map<Tag, int>, refCount: map<int, int>, key: Tag, h: int)
    requires CountsMatch(tags, refCount)
    requires h in refCount && (key in tags ==> tags[key] in refCount)
    ensures CountsMatch(tags[key := h], Retagged(tags, refCount, key, h))
  {
    var after := Retagged(tags, refCount, key, h);
    forall s | s in after
      ensures after[s] == |TagsOf(tags[key := h], s)|
    {
      TagsAfterPut(tags, key, h, s);
    }
  }

  /** Untagging keeps the counts in step with the tags. */
  lemma UntagCounts(tags: map<Tag, int>, refCount: map<int, int>, key: Tag)
    requires CountsMatch(tags, refCount)
    requires key in tags && tags[key] in refCount
    ensures CountsMatch(tags - {key}, refCount[tags[key] := refCount[tags[key]] - 1])
  {
    var after := refCount[tags[key] := refCount[tags[key]] - 1];
    forall s | s in after
      ensures after[s] == |TagsOf(tags - {key}, s)|
    {
      TagsAfterRemove(tags, key, s);
    }
  }

  /** Every tag holds a counted revision other than the tail. */
  ghost predicate Held(tags: map<Tag, int>, refCount: map<int, int>)
  {
    forall t :: t in tags ==> tags[t] in refCount && tags[t] != 0
  }

  /** The revisions listed are exactly those counted at least once. */
  ghost predicate Listed(revisions: set<int>, refCount: map<int, int>)
  {
    forall s :: s in revisions <==> s in refCount && refCount[s] > 0
  }

  /**
   * Every wrapped revision has a sequence number below the next one and is
   * counted once per tag that holds it; `revisions` are exactly those
   * counted at least once; the tail is sequence number 0 and no tag holds it.
   */
  ghost predicate Consistent(tags: map<Tag, int>, refCount: map<int, int>, revisions: set<int>,
                             payload: map<int, Snapshot>, next: int)
  {
    && refCount.Keys == payload.Keys
    && 0 in payload && payload[0] == EmptyRevision
    && (forall s :: s in refCount ==> 0 <= s < next)
    && CountsMatch(tags, refCount)
    && Held(tags, refCount)
    && Listed(revisions, refCount)
  }

  /** A counted revision has a count of at least zero, and the one `key` holds at least one. */
  lemma HeldCounted(tags: map<Tag, int>, refCount: map<int, int>, key: Tag, h: int)
    requires CountsMatch(tags, refCount) && Held(tags, refCount) && h in refCount
    ensures refCount[h] >= 0
    ensures key in tags && tags[key] == h ==> refCount[h] >= 1
    ensures key in tags ==> tags[key] in refCount && refCount[tags[key]] >= 1
  {
    assert refCount[h] == |TagsOf(tags, h)|;
    if key in tags {
      assert key in TagsOf(tags, tags[key]);
    }
  }

  /** `key` taking a held revision `h` keeps the state consistent. */
  lemma RetagConsistent(tags: map<Tag, int>, refCount: map<int, int>, revisions: set<int>,
                        payload: map<int, Snapshot>, next: int, key: Tag, h: int, relisted: set<int>)
    requires Consistent(tags, refCount, revisions, payload, next)
    requires h in refCount && h != 0
    requires Listed(relisted, Retagged(tags, refCount, key, h))
    ensures Consistent(tags[key := h], Retagged(tags, refCount, key, h), relisted, payload, next)
    ensures h in relisted
  {
    RetagCounts(tags, refCount, key, h);
    HeldCounted(tags, refCount, key, h);
  }

  class DiffServer {
    var tags: map<Tag, int>
    var refCount: map<int, int>
    var revisions: set<int>
    var payload: map<int, Snapshot>
    var nextSequenceNumber: int

    ghost predicate Valid()
      reads this
    {
      Consistent(tags, refCount, revisions, payload, nextSequenceNumber)
    }

    /** A new server: only the tail exists, with sequence number 0, held by no tag. */
    constructor()
      ensures Valid()
      ensures tags == map[] && revisions == {} && nextSequenceNumber == 1
    {
      tags := map[];
      refCount := map[0 := 0];
      revisions := {};
      payload := map[0 := EmptyRevision];
      nextSequenceNumber := 1;
      new;
      assert TagsOf(tags, 0) == {};
    }

    /** `increment`: one more holder; a revision held for the first time joins `revisions`. */
    method Increment(s: int)
      requires s in refCount
      modifies this
      ensures refCount == old(refCount)[s := old(refCount)[s] + 1]
      ensures revisions == if old(refCount)[s] == 0 then old(revisions) + {s} else old(revisions)
      ensures Listed(old(revisions), old(refCount)) && old(refCount)[s] >= 0 ==> Listed(revisions, refCount)
      ensures tags == old(tags) && payload == old(payload) && nextSequenceNumber == old(nextSequenceNumber)
    {
      var count := refCount[s];
      refCount := refCount[s := count + 1];
      if count == 0 {
        revisions := revisions + {s};
      }
    }

    /**
     * `decrement`: nothing for a missing revision; a count already at zero
     * or below is a `RuntimeException` (`thrown`); otherwise one holder
     * fewer, and a revision no longer held leaves `revisions`.
     */
    method Decrement(r: Option<int>) returns (thrown: bool)
      requires r.Some? ==> r.value in refCount
      modifies this
      ensures thrown <==> r.Some? && old(refCount)[r.value] <= 0
      ensures thrown || r.None? ==> refCount == old(refCount) && revisions == old(revisions)
      ensures !thrown && r.Some? ==> refCount == old(refCount)[r.value := old(refCount)[r.value] - 1]
      ensures !thrown && r.Some? ==>
        revisions == if old(refCount)[r.value] == 1 then old(revisions) - {r.value} else old(revisions)
      ensures Listed(old(revisions), old(refCount)) ==> Listed(revisions, refCount)
      ensures tags == old(tags) && payload == old(payload) && nextSequenceNumber == old(nextSequenceNumber)
    {
      if r.Some? {
        var s := r.value;
        if refCount[s] <= 0 {
          return true;
        }
        var count := refCount[s] - 1;
        refCount := refCount[s := count];
        if count == 0 {
          revisions := revisions - {s};
        }
      }
      return false;
    }

    /**
     * `decrement(tags.put(key, increment(h)))`, the step `setTag` and the
     * head listener share: `key` comes to hold `h` and lets go of what it
     * held.  The `RuntimeException` of `decrement` cannot happen, since the
     * revision `key` held counts `key` among its holders.
     */
    method Retag(key: Tag, h: int)
      requires Valid() && h in refCount && h != 0
      modifies this
      ensures Valid()
      ensures tags == old(tags)[key := h]
      ensures h in revisions
      ensures refCount == Retagged(old(tags), old(refCount), key, h)
      ensures payload == old(payload) && nextSequenceNumber == old(nextSequenceNumber)
    {
      ghost var before := tags;
      ghost var counts := Retagged(tags, refCount, key, h);
      HeldCounted(tags, refCount, key, h);
      Increment(h);
      var previous := if key in tags then Some(tags[key]) else None;
      tags := tags[key := h];
      var thrown := Decrement(previous);
      RetagConsistent(before, old(refCount), old(revisions), payload, nextSequenceNumber, key, h, revisions);
    }

    /** A new wrapped revision, held by no tag yet, with the next sequence number. */
    method Wrap(revision: Snapshot) returns (n: int)
      requires Valid()
      modifies this
      ensures Valid()
      ensures n == old(nextSequenceNumber) && n != 0 && nextSequenceNumber == n + 1
      ensures refCount == old(refCount)[n := 0] && payload == old(payload)[n := revision]
      ensures tags == old(tags) && revisions == old(revisions)
    {
      n := nextSequenceNumber;
      nextSequenceNumber := n + 1;
      refCount := refCount[n := 0];
      payload := payload[n := revision];
      assert TagsOf(tags, n) == {};
    }

    /**
     * The listener run on every new head: the head is wrapped with the
     * next sequence number, `Head` moves to it, and the revision `Head`
     * held before loses a holder.  `head` stands for `server.head()`.
     */
    method OnHead(head: int)
      requires Valid()
      modifies this
      ensures Valid()
      ensures nextSequenceNumber == old(nextSequenceNumber) + 1
      ensures tags == old(tags)[Head := old(nextSequenceNumber)]
      ensures payload == old(payload)[old(nextSequenceNumber) := ServerHead(head)]
      ensures old(nextSequenceNumber) in revisions
      ensures forall s :: s in old(refCount) && (Head !in old(tags) || s != old(tags)[Head]) ==>
        refCount[s] == old(refCount)[s]
    {
      var n := Wrap(ServerHead(head));
      Retag(Head, n);
    }

    /**
     * `setTag`: `key` comes to hold what `Head` holds and lets go of what
     * it held.  Before any head exists `tags.get(Head)` is null and
     * `increment` throws a `NullPointerException` (`ok` false), changing nothing.
     */
    method SetTag(key: Tag) returns (ok: bool)
      requires Valid()
      modifies this
      ensures Valid()
      ensures ok <==> Head in old(tags)
      ensures ok ==> tags == old(tags)[key := old(tags)[Head]]
      ensures ok ==> old(tags)[Head] in revisions
      ensures !ok ==> tags == old(tags) && refCount == old(refCount) && revisions == old(revisions)
      ensures payload == old(payload) && nextSequenceNumber == old(nextSequenceNumber)
    {
      if Head !in tags {
        return false;
      }
      Retag(key, tags[Head]);
      return true;
    }

    /** `removeTag`: `key` lets go of what it held, if anything. */
    method RemoveTag(key: Tag)
      requires Valid()
      modifies this
      ensures Valid()
      ensures tags == old(tags) - {key}
      ensures key in old(tags) && old(refCount)[old(tags)[key]] == 1 ==> old(tags)[key] !in revisions
      ensures payload == old(payload) && nextSequenceNumber == old(nextSequenceNumber)
    {
      if key in tags {
        UntagCounts(tags, refCount, key);
        assert key in TagsOf(tags, tags[key]);
      } else {
        assert tags - {key} == tags;
      }
      ghost var counts := if key in tags then refCount[tags[key] := refCount[tags[key]] - 1] else refCount;
      var previous := if key in tags then Some(tags[key]) else None;
      tags := tags - {key};
      var thrown := Decrement(previous);
      assert refCount == counts;
    }

    /** `tail`: the empty revision with sequence number 0. */
    function Tail(): (r: LinearRevision)
      requires Valid()
      reads this
      ensures r.sequenceNumber == 0 && r.sequenceNumber !in revisions
      ensures r.revision == EmptyRevision
    {
      assert TagsOf(tags, 0) == {};
      LinearRevision(payload[0], 0)
    }

    /**
     * `next`: the first held revision after `base`, in sequence order, or
     * null when there is none.  The ordered map's `tailMap` lookup is a scan
     * over the sequence numbers after `base`.
     */
    method Next(base: int) returns (r: Option<LinearRevision>)
      requires Valid()
      ensures r.None? <==> forall s :: s in revisions ==> s <= base
      ensures r.Some? ==> r.value.sequenceNumber in revisions && r.value.sequenceNumber > base
      ensures r.Some? ==> forall s :: s in revisions && s > base ==> s >= r.value.sequenceNumber
      ensures r.Some? ==> r.value.revision == payload[r.value.sequenceNumber]
    {
      var s := base + 1;
      while s < nextSequenceNumber
        invariant s >= base + 1
        invariant forall t :: base < t < s ==> t !in revisions
        decreases nextSequenceNumber - s
      {
        if s in revisions {
          return Some(LinearRevision(payload[s], s));
        }
        s := s + 1;
      }
      return None;
    }
  }

  /** Tagging a fresh key and untagging it again leaves every count and `revisions` as they were. */
  method TagRoundTrip(server: DiffServer, key: int)
    requires server.Valid() && Key(key) !in server.tags
    modifies server
    ensures server.Valid()
    ensures server.tags == old(server.tags)
    ensures server.refCount == old(server.refCount) && server.revisions == old(server.revisions)
  {
    var ok := server.SetTag(Key(key));
    server.RemoveTag(Key(key));
    assert server.tags == old(server.tags);
    assert server.refCount == old(server.refCount) by {
      forall s | s in server.refCount
        ensures server.refCount[s] == old(server.refCount)[s]
      {
      }
    }
    assert server.revisions == old(server.revisions) by {
      forall s
        ensures s in server.revisions <==> s in old(server.revisions)
      {
      }
    }
  }
}
