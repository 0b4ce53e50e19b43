/** The check of a clip's index against the chunks that the walk found. */
module AviCheck {
  import opened Bytes
  import opened AviFormat
  import opened AviIngest
  import opened AviRepair
  import opened AviFrames

  datatype Findings = Findings(warnings: nat, errors: nat)

  /** The entries of an index that the file has room for. */
  function Present(f: seq<byte>, idxOff: nat, idxSize: nat): (n: nat)
    ensures n > 0 ==> idxOff + 8 + 16 * n <= |f|
  {
    if idxOff + 8 + idxSize <= |f| then idxSize / 16
    else if |f| < idxOff + 8 then 0
    else (|f| - idxOff - 8) / 16
  }

  /** The entry at `e` names the chunk `c`, its offset counted from `base`. */
  predicate Names(f: seq<byte>, e: nat, c: Chunk, base: nat)
    requires e + 16 <= |f|
  {
    Tag(f, e, DC) && Get32(f, e + 8) + base == c.off && Get32(f, e + 12) == c.size
  }

  /** The first `n` entries name the first `n` chunks. */
  predicate NamesFirst(f: seq<byte>, idxOff: nat, n: nat, cs: seq<Chunk>, base: nat)
    requires n > 0 ==> idxOff + 8 + 16 * n <= |f|
  {
    n <= |cs| && forall i :: 0 <= i < n ==> Names(f, idxOff + 8 + 16 * i, cs[i], base)
  }

  /** The index is all there and names every chunk, in order, as the camera writes it. */
  predicate Exact(f: seq<byte>, idxOff: nat, idxSize: nat, cs: seq<Chunk>, movi: nat) {
    && idxOff + 8 + idxSize <= |f| && idxSize / 16 == |cs|
    && NamesFirst(f, idxOff, |cs|, cs, movi)
  }

  method CheckEntry(f: seq<byte>, e: nat, c: Chunk, base: nat) returns (errors: nat)
    requires e + 16 <= |f|
    ensures errors == 0 <==> Names(f, e, c, base)
  {
    errors := if Tag(f, e, DC) then 0 else 1;
    if Get32(f, e + 8) + base != c.off {
      errors := errors + 1;
    }
    if Get32(f, e + 12) != c.size {
      errors := errors + 1;
    }
  }

  /**
   * Silent exactly when the index is exact; without errors exactly when it is short at worst and names the chunks
   * it covers, from either of the two bases that index writers use.
   */
  method CheckIdx1(f: seq<byte>, idxOff: nat, idxSize: nat, cs: seq<Chunk>, movi: nat) returns (r: Findings)
    requires movi > 0
    ensures r == Findings(0, 0) <==> Exact(f, idxOff, idxSize, cs, movi)
    ensures var n := Present(f, idxOff, idxSize);
      r.errors == 0 <==> NamesFirst(f, idxOff, n, cs, movi) || NamesFirst(f, idxOff, n, cs, 0)
  {
    hide Tag;
    var warnings, errors, n := 0, 0, idxSize / 16;
    if idxOff + 8 + idxSize > |f| {
      n := if |f| < idxOff + 8 then 0 else (|f| - idxOff - 8) / 16;
      warnings := 1;
    }
    if n < |cs| {
      warnings := warnings + 1;
    } else if n > |cs| {
      errors := 1;
    }
    var base := movi;
    if n > 0 && cs != [] {
      var first := Get32(f, idxOff + 16);
      if first + movi != cs[0].off {
        if first != cs[0].off {
          assert !Names(f, idxOff + 8 + 16 * 0, cs[0], movi) && !Names(f, idxOff + 8 + 16 * 0, cs[0], 0);
          return Findings(warnings, errors + 1);
        }
        base, warnings := 0, warnings + 1;
        assert !Names(f, idxOff + 8 + 16 * 0, cs[0], movi);
      } else {
        assert !Names(f, idxOff + 8 + 16 * 0, cs[0], 0);
      }
    }
    var most := if n < |cs| then n else |cs|;
    ghost var before := errors;
    for i := 0 to most
      invariant errors >= before
      invariant errors == before <==> forall j :: 0 <= j < i ==> Names(f, idxOff + 8 + 16 * j, cs[j], base)
    {
      var more := CheckEntry(f, idxOff + 8 + 16 * i, cs[i], base);
      errors := errors + more;
    }
    return Findings(warnings, errors);
  }

  /** A sound clip below 4 GB has nothing for the check to report. */
  lemma SoundIsExact(g: seq<byte>, head: seq<byte>, body: seq<byte>, cs: seq<Chunk>)
    requires Sound(g, head, body, cs) && |g| <= TWO_32
    ensures var e := HDR_SIZE + |body|;
      && Walk(g) == Scanned(cs, e, false) && e + 8 <= |g| && Tag(g, e, IDX1)
      && Exact(g, e, Get32(g, e + 4), cs, MOVI_FCC)
  {
    hide Closed, PatchHeader, Index, IndexBody, IndexEntry, Scan, Run, Get32, EntryFrame, Tag, Names, PadCut;
    var e := HDR_SIZE + |body|;
    ClosedSplit(head, body, cs);
    ClosedFields(head, body, cs);
    NotPadCut(g, e);
    assert |g| == e + 8 + 16 * |cs|;
    assert Get32(g, e + 4) == 16 * |cs|;
    forall i | 0 <= i < |cs| ensures Names(g, e + 8 + 16 * i, cs[i], MOVI_FCC) {
      SoundEntry(g, head, body, cs, i);
      EntryNames(g, e + 8 + 16 * i, cs[i]);
    }
  }

  lemma NotPadCut(g: seq<byte>, e: nat)
    requires e + 8 <= |g| && Tag(g, e, IDX1)
    ensures !PadCut(g, e)
  {
  }

  lemma EntryNames(g: seq<byte>, at: nat, c: Chunk)
    requires at + 16 <= |g| && Tag(g, at, DC) && EntryFrame(g, at) == Frame(c.off + 8, c.size)
    ensures Names(g, at, c, MOVI_FCC)
  {
  }

  /** What an ingest writes passes the check: the walk is not cut short and the index is exact. */
  lemma IngestedIsExact(f: seq<byte>)
    requires Ingest(f).Ok? && |Ingest(f).value.data| <= TWO_32
    ensures var g, k := Ingest(f).value.data, Kept(f);
      && Walk(g) == Scanned(k.chunks, k.end, false) && k.end + 8 <= |g| && Tag(g, k.end, IDX1)
      && Exact(g, k.end, Get32(g, k.end + 4), k.chunks, MOVI_FCC)
  {
    hide Sound, Exact, Kept, Walk, Tag;
    var k := Kept(f);
    IngestSound(f);
    SoundIsExact(Ingest(f).value.data, f[..HDR_SIZE], f[HDR_SIZE..k.end], k.chunks);
  }
}
