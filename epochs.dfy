/**
  The container's epoch table and the upsert of `add_epochs`: an epoch whose tag list is
  already a row has its times overwritten, any other epoch is appended.
 */
module Epochs {
  import opened Values
  import opened Recordings

  /** `recording.frame_to_time(frame)`, kept symbolic: the model only needs to know which
      frame a time was taken from. */
  datatype Time = FrameTime(frame: int)

  /** The epoch table: one tag list, start time and stop time per row. `present` is false
      while the container has no epoch table at all (`nwbfile.epochs is None`). */
  datatype EpochTable = EpochTable(present: bool, tags: seq<seq<string>>, start: seq<Time>, stop: seq<Time>)
  {
    predicate Valid() {
      |start| == |tags| && |stop| == |tags| && (!present ==> tags == [])
    }
  }

  const NoEpochs := EpochTable(false, [], [], [])

  /** One iteration of `add_epochs`. Afterwards the table exists, the epoch's tag list is a row
      holding its start frame, and its stop frame is the end frame, except on the first row of
      a table that did not exist, which stops one frame earlier. Every other row is unchanged,
      and a row is appended exactly when the tag list was not a row yet. */
  function Upsert(t: EpochTable, e: Epoch): (r: EpochTable)
    requires t.Valid()
    ensures r.Valid() && r.present
    ensures |r.tags| == |t.tags| + (if [e.name] in t.tags then 0 else 1)
    ensures r.tags[..|t.tags|] == t.tags
    ensures [e.name] in r.tags
    ensures r.start[IndexOf(r.tags, [e.name])] == FrameTime(e.startFrame)
    ensures r.stop[IndexOf(r.tags, [e.name])] == FrameTime(if t.present then e.endFrame else e.endFrame - 1)
    ensures forall k :: 0 <= k < |t.tags| && t.tags[k] != [e.name] ==>
      r.start[k] == t.start[k] && r.stop[k] == t.stop[k]
  {
    if !t.present then
      EpochTable(true, [[e.name]], [FrameTime(e.startFrame)], [FrameTime(e.endFrame - 1)])
    else if [e.name] in t.tags then
      var k := IndexOf(t.tags, [e.name]);
      t.(start := t.start[k := FrameTime(e.startFrame)], stop := t.stop[k := FrameTime(e.endFrame)])
    else
      var r := t.(tags := t.tags + [[e.name]], start := t.start + [FrameTime(e.startFrame)],
                  stop := t.stop + [FrameTime(e.endFrame)]);
      assert r.tags[|t.tags|] == [e.name];
      r
  }

  /** The loop of `add_epochs` over the recording's epochs, in order. */
  function UpsertAll(t: EpochTable, es: seq<Epoch>): (r: EpochTable)
    requires t.Valid()
    ensures r.Valid()
    decreases |es|
  {
    if es == [] then t else Upsert(UpsertAll(t, es[..|es| - 1]), es[|es| - 1])
  }

  lemma UpsertAllStep(t: EpochTable, es: seq<Epoch>, i: nat)
    requires t.Valid() && i < |es|
    ensures UpsertAll(t, es[..i + 1]) == Upsert(UpsertAll(t, es[..i]), es[i])
  {
    assert es[..i + 1][..i] == es[..i];
  }

  /** Rows are never removed or reordered: the old tags are a prefix of the new ones. */
  lemma {:induction false} UpsertAllPrefix(t: EpochTable, es: seq<Epoch>)
    requires t.Valid()
    ensures |t.tags| <= |UpsertAll(t, es).tags| && UpsertAll(t, es).tags[..|t.tags|] == t.tags
    decreases |es|
  {
    if es != [] {
      var prev := UpsertAll(t, es[..|es| - 1]);
      UpsertAllPrefix(t, es[..|es| - 1]);
      assert prev.tags[..|t.tags|] == t.tags;
    }
  }

  /** Every epoch of the recording has a row afterwards. */
  lemma {:induction false} UpsertAllCovers(t: EpochTable, es: seq<Epoch>)
    requires t.Valid()
    ensures forall e :: e in es ==> [e.name] in UpsertAll(t, es).tags
    decreases |es|
  {
    if es != [] {
      var init := es[..|es| - 1];
      var prev := UpsertAll(t, init);
      var r := UpsertAll(t, es);
      UpsertAllCovers(t, init);
      forall e | e in es ensures [e.name] in r.tags {
        if e in init {
          var k :| 0 <= k < |prev.tags| && prev.tags[k] == [e.name];
          assert r.tags[..|prev.tags|] == prev.tags;
          assert r.tags[k] == [e.name];
        }
      }
    }
  }

  /** A table whose tag lists are distinct keeps them distinct: no epoch is added twice. */
  lemma {:induction false} UpsertAllDistinct(t: EpochTable, es: seq<Epoch>)
    requires t.Valid() && Distinct(t.tags)
    ensures Distinct(UpsertAll(t, es).tags)
    decreases |es|
  {
    if es != [] {
      var prev := UpsertAll(t, es[..|es| - 1]);
      UpsertAllDistinct(t, es[..|es| - 1]);
      var e := es[|es| - 1];
      var r := Upsert(prev, e);
      if prev.present && [e.name] !in prev.tags {
        forall i, j | 0 <= i < j < |r.tags| ensures r.tags[i] != r.tags[j] {
          if j == |prev.tags| {
            assert r.tags[i] == prev.tags[i];
            assert prev.tags[i] in prev.tags;
          } else {
            assert r.tags[i] == prev.tags[i] && r.tags[j] == prev.tags[j];
          }
        }
      }
    }
  }

  /** The row of an epoch name holds the start frame of the last epoch with that name. */
  lemma {:induction false} UpsertAllLatest(t: EpochTable, es: seq<Epoch>, i: nat)
    requires t.Valid() && i < |es|
    requires forall i' :: i < i' < |es| ==> es[i'].name != es[i].name
    ensures [es[i].name] in UpsertAll(t, es).tags
    ensures UpsertAll(t, es).start[IndexOf(UpsertAll(t, es).tags, [es[i].name])] == FrameTime(es[i].startFrame)
    decreases |es|
  {
    var init := es[..|es| - 1];
    var prev := UpsertAll(t, init);
    var r := UpsertAll(t, es);
    var n := [es[i].name];
    if i < |es| - 1 {
      assert es[i] == init[i];
      UpsertAllLatest(t, init, i);
      var k := IndexOf(prev.tags, n);
      assert r.tags[..|prev.tags|] == prev.tags;
      IndexOfPrefix(r.tags, |prev.tags|, n);
      assert prev.tags[k] != [es[|es| - 1].name];
    }
  }

  /** Adding the same epochs again adds no rows. */
  lemma {:induction false} UpsertAllAgain(t: EpochTable, es: seq<Epoch>)
    requires t.Valid() && t.present
    requires forall e :: e in es ==> [e.name] in t.tags
    ensures UpsertAll(t, es).tags == t.tags
    decreases |es|
  {
    if es != [] {
      var init := es[..|es| - 1];
      assert forall e :: e in init ==> e in es;
      UpsertAllAgain(t, init);
      assert es[|es| - 1] in es;
    }
  }

  /** The first epoch written into a container without an epoch table stops one frame earlier
      than the same epoch written into a container whose epoch table exists but is empty. */
  lemma FirstEpochStopsEarly(e: Epoch)
    ensures Upsert(NoEpochs, e).stop == [FrameTime(e.endFrame - 1)]
    ensures Upsert(NoEpochs.(present := true), e).stop == [FrameTime(e.endFrame)]
  {
  }
}
