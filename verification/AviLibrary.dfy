/** From the card to the library: clips that were ingested can be joined without loss, in any grouping. */
module AviLibrary {
  import opened Wrappers
  import opened Bytes
  import opened AviFormat
  import opened AviIngest
  import opened AviRepair
  import opened AviFrames
  import opened AviCheck
  import opened AviJoin
  import opened AviJoinLaws

  /** Every file is what some ingest wrote. */
  ghost predicate AllIngested(gs: seq<seq<byte>>) {
    forall i :: 0 <= i < |gs| ==> IsIngested(gs[i])
  }

  ghost predicate IsIngested(g: seq<byte>) {
    exists f :: Ingest(f).Ok? && Ingest(f).value.data == g
  }

  /** No ingested clip has lost pad bytes. */
  lemma IngestedIsNotRagged(g: seq<byte>)
    requires IsIngested(g)
    ensures |g| >= HDR_SIZE && !Ragged(g)
  {
    hide Closed, Sound, Kept, Ingest;
    var f :| Ingest(f).Ok? && Ingest(f).value.data == g;
    IngestSound(f);
    SoundIsNotRagged(g, f[..HDR_SIZE], f[HDR_SIZE..Kept(f).end], Kept(f).chunks);
  }

  lemma SoundIsNotRagged(g: seq<byte>, head: seq<byte>, body: seq<byte>, cs: seq<Chunk>)
    requires Sound(g, head, body, cs)
    ensures |g| >= HDR_SIZE && !Ragged(g)
  {
    hide PatchHeader, Index, Run, Scan, PadCut;
    ClosedSplit(head, body, cs);
    NotPadCut(g, HDR_SIZE + |body|);
  }

  lemma IngestedAreClips(gs: seq<seq<byte>>)
    requires AllIngested(gs)
    ensures Clips(gs) && NoneRagged(gs)
  {
    hide IsIngested, Ragged;
    forall i | 0 <= i < |gs| ensures |gs[i]| >= HDR_SIZE && !Ragged(gs[i]) {
      IngestedIsNotRagged(gs[i]);
    }
  }

  /** A join of ingested clips plays every frame of every clip, in order. */
  lemma IngestedClipsJoin(gs: seq<seq<byte>>)
    requires AllIngested(gs) && Clips(gs) && Join(gs).Ok?
    ensures var x := Join(gs).value; Payloads(x, Walk(x).chunks) == AllPayloads(gs)
  {
    hide AllIngested, Join, Payloads, AllPayloads, Walk, Clips, Ragged;
    IngestedAreClips(gs);
    FirstRaggedSpec(gs);
    assert FirstRagged(gs) == |gs|;
    NothingRagged(gs);
    JoinIsHomomorphism(gs);
  }

  /** However ingested clips are grouped, joining them gives the same bytes. */
  lemma IngestedClipsGroup(xs: seq<seq<byte>>, ys: seq<seq<byte>>, zs: seq<seq<byte>>)
    requires AllIngested(ys) && Clips(xs + ys + zs) && Join(xs + ys + zs).Ok? && ys != []
    ensures Clips(ys) && Join(ys).Ok? && Clips(xs + [Join(ys).value] + zs)
    ensures Join(xs + [Join(ys).value] + zs) == Join(xs + ys + zs)
  {
    hide AllIngested, Join, Clips, NoneRagged;
    IngestedAreClips(ys);
    JoinIsAssociative(xs, ys, zs);
  }

  /** Joining one ingested clip below 4 GB gives that clip back. */
  lemma JoinOfOne(f: seq<byte>)
    requires Ingest(f).Ok? && |Ingest(f).value.data| <= AVI_MAX_BYTES
    ensures var g := Ingest(f).value.data; Clips([g]) && Join([g]) == Ok(g)
  {
    hide Closed, Sound, Kept, Ingest, Walk;
    IngestSound(f);
    SoundOfOne(Ingest(f).value.data, f[..HDR_SIZE], f[HDR_SIZE..Kept(f).end], Kept(f).chunks);
  }

  lemma SoundOfOne(g: seq<byte>, head: seq<byte>, body: seq<byte>, cs: seq<Chunk>)
    requires Sound(g, head, body, cs) && |g| <= AVI_MAX_BYTES
    ensures Clips([g]) && Join([g]) == Ok(g)
  {
    hide PatchHeader, Index, Run, Scan, PadCut, Tag, FactsOf, Walk, Exact;
    var e := HDR_SIZE + |body|;
    SoundIsExact(g, head, body, cs);
    ClosedSplit(head, body, cs);
    ClosedRiff(head, body, cs);
    assert Body(g) == body;
    BodiesOfOne(g);
    ChunksStay(g, head, body, cs);
    ClosedSameHead(g[..HDR_SIZE], head, body, cs);
  }

  lemma BodiesOfOne(g: seq<byte>)
    ensures Bodies([g]) == Body(g) && Chunks([g]) == Moved(Walk(g).chunks, HDR_SIZE, HDR_SIZE)
  {
    hide Body, Walk, Moved;
    assert [g][..0] == [];
    assert Bodies([]) == [] && Chunks([]) == [];
    assert [] + Body(g) == Body(g);
  }

  /** Chunks moved to where they are stay. */
  lemma ChunksStay(g: seq<byte>, head: seq<byte>, body: seq<byte>, cs: seq<Chunk>)
    requires Sound(g, head, body, cs)
    ensures Moved(cs, HDR_SIZE, HDR_SIZE) == cs
  {
    hide Closed, Run, Scan;
    ScanIsRun(g, HDR_SIZE, NO_LIMIT);
    forall i | 0 <= i < |cs| ensures Moved(cs, HDR_SIZE, HDR_SIZE)[i] == cs[i] {
      RunAt(g, HDR_SIZE, cs, HDR_SIZE + |body|, NO_LIMIT, i);
    }
  }
}
