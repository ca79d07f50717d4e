/** Properties of the reconciliation engine: exact classification, the
    aggregate's totals, what reaches the global digest, the trailer verdicts,
    List's outcome and the header name. */
module ComparerProperties {
  import opened Wrappers
  import opened Words
  import opened Digests
  import opened Aggregate
  import opened Files
  import opened Comparing

  /** The file at p holds exactly what the record describes: it opens, reads
      without error, has the recorded size and the recorded checksum. */
  predicate Unchanged(alg: Algorithm, os: Os, p: Path, fi: FileInfo)
  {
    p in os.fs && os.fs[p].opens && !os.fs[p].readFails &&
    fi.size < TWO_TO_63 && |os.fs[p].data| == fi.size &&
    alg.sum(os.fs[p].data) == fi.curr
  }

  /** The records some directory holds, in manifest order. */
  function ResolvedOnly(os: Os, dirs: seq<Path>, recs: seq<FileInfo>): seq<FileInfo>
  {
    if recs == [] then []
    else
      var init := ResolvedOnly(os, dirs, recs[..|recs| - 1]);
      if Resolved(os, dirs, recs[|recs| - 1]) then init + [recs[|recs| - 1]] else init
  }

  lemma {:induction false} LinesLength(os: Os, dirs: seq<Path>, alg: Algorithm, recs: seq<FileInfo>)
    ensures |CompareRecords(os, dirs, alg, recs).lines| == |recs|
  {
    if recs != [] {
      LinesLength(os, dirs, alg, recs[..|recs| - 1]);
    }
  }

  /** The i-th report line is the i-th record's own outcome. */
  lemma {:induction false} LineAt(os: Os, dirs: seq<Path>, alg: Algorithm, recs: seq<FileInfo>, i: nat)
    requires i < |recs|
    ensures |CompareRecords(os, dirs, alg, recs).lines| == |recs|
    ensures CompareRecords(os, dirs, alg, recs).lines[i] == Reconcile(os, dirs, alg, recs[i]).line
  {
    var init := recs[..|recs| - 1];
    LinesLength(os, dirs, alg, init);
    LinesLength(os, dirs, alg, recs);
    if i < |recs| - 1 {
      LineAt(os, dirs, alg, init, i);
    }
  }

  /** Classification is exact: a record is Deleted iff no directory holds
      it, Identical iff the file found is unchanged, and Modified iff it is
      found but not unchanged; the reported sum is the sum of that file's
      bytes alone, so no byte of another file reaches it. */
  lemma ClassifyExact(os: Os, dirs: seq<Path>, alg: Algorithm, recs: seq<FileInfo>, i: nat)
    requires i < |recs|
    ensures var lines := CompareRecords(os, dirs, alg, recs).lines;
      var p := Resolve(os, dirs, recs[i]).file;
      |lines| == |recs| &&
      (lines[i].status == Deleted <==> !Resolved(os, dirs, recs[i])) &&
      (lines[i].status == Identical <==> Resolved(os, dirs, recs[i]) && Unchanged(alg, os, p, recs[i])) &&
      (lines[i].status == Modified <==> Resolved(os, dirs, recs[i]) && !Unchanged(alg, os, p, recs[i])) &&
      lines[i].file == p && lines[i].size == recs[i].size &&
      lines[i].sum == alg.sum(if Resolved(os, dirs, recs[i]) then Streamed(os, p) else [])
  {
    LineAt(os, dirs, alg, recs, i);
    var r := Resolve(os, dirs, recs[i]);
    FileCheckAccepts(alg, os, r, []);
    assert [] + Streamed(os, r.file) == Streamed(os, r.file);
    if r.file in os.fs {
      assert [] + os.fs[r.file].data == os.fs[r.file].data;
    }
  }

  lemma SizesSnoc(recs: seq<FileInfo>, x: FileInfo)
    ensures Sizes(recs + [x]) == Sizes(recs) + [x.size]
  {
    assert (recs + [x])[..|recs|] == recs;
  }

  lemma TallySnoc(sizes: seq<uint64>, s: uint64)
    ensures Tally(sizes + [s]) == Tally(sizes).Update(s)
  {
    assert (sizes + [s])[..|sizes|] == sizes;
  }

  /** Accounting: compareFiles counts only the records some directory
      holds; its aggregate is their number and the sum of their recorded
      sizes (modulo 2^64). Deleted records add nothing. */
  lemma {:induction false} CompareAccounting(os: Os, dirs: seq<Path>, alg: Algorithm, recs: seq<FileInfo>)
    ensures var resolved := ResolvedOnly(os, dirs, recs);
      CompareRecords(os, dirs, alg, recs).cz == Tally(Sizes(resolved)) &&
      CompareRecords(os, dirs, alg, recs).cz == Coze(|resolved| % TWO_TO_64, Sum(Sizes(resolved)) % TWO_TO_64)
  {
    var resolved := ResolvedOnly(os, dirs, recs);
    if recs != [] {
      var init := recs[..|recs| - 1];
      var x := recs[|recs| - 1];
      CompareAccounting(os, dirs, alg, init);
      if Resolved(os, dirs, x) {
        SizesSnoc(ResolvedOnly(os, dirs, init), x);
        TallySnoc(Sizes(ResolvedOnly(os, dirs, init)), x.size);
      }
    }
    TallyTotals(Sizes(resolved));
  }

  lemma {:induction false} StreamedAppend(os: Os, dirs: seq<Path>, alg: Algorithm, a: seq<FileInfo>, b: seq<FileInfo>)
    ensures CompareRecords(os, dirs, alg, a + b).streamed ==
      CompareRecords(os, dirs, alg, a).streamed + CompareRecords(os, dirs, alg, b).streamed
  {
    if b == [] {
      assert a + b == a;
    } else {
      var init, last := b[..|b| - 1], b[|b| - 1];
      assert (a + b)[..|a + b| - 1] == a + init;
      assert (a + b)[|a + b| - 1] == last;
      var bytes := Reconcile(os, dirs, alg, last).streamed;
      assert CompareRecords(os, dirs, alg, a + b).streamed ==
        CompareRecords(os, dirs, alg, a + init).streamed + bytes;
      assert CompareRecords(os, dirs, alg, b).streamed ==
        CompareRecords(os, dirs, alg, init).streamed + bytes;
      StreamedAppend(os, dirs, alg, a, init);
    }
  }

  lemma {:induction false} ResolvedOnlyAppend(os: Os, dirs: seq<Path>, a: seq<FileInfo>, b: seq<FileInfo>)
    ensures ResolvedOnly(os, dirs, a + b) == ResolvedOnly(os, dirs, a) + ResolvedOnly(os, dirs, b)
  {
    if b == [] {
      assert a + b == a;
    } else {
      var init := b[..|b| - 1];
      assert (a + b)[..|a + b| - 1] == a + init;
      assert (a + b)[|a + b| - 1] == b[|b| - 1];
      ResolvedOnlyAppend(os, dirs, a, init);
    }
  }

  /** A record no directory holds leaves no trace: dropping it from the
      manifest changes neither the aggregate nor a single byte fed to the
      global digest. */
  lemma DeletedLeavesNoTrace(os: Os, dirs: seq<Path>, alg: Algorithm, recs: seq<FileInfo>, i: nat)
    requires i < |recs| && !Resolved(os, dirs, recs[i])
    ensures var without := recs[..i] + recs[i + 1..];
      CompareRecords(os, dirs, alg, recs).cz == CompareRecords(os, dirs, alg, without).cz &&
      CompareRecords(os, dirs, alg, recs).streamed == CompareRecords(os, dirs, alg, without).streamed
  {
    DeletedAddsNoCount(os, dirs, alg, recs, i);
    DeletedStreamsNothing(os, dirs, alg, recs, i);
  }

  lemma DeletedAddsNoCount(os: Os, dirs: seq<Path>, alg: Algorithm, recs: seq<FileInfo>, i: nat)
    requires i < |recs| && !Resolved(os, dirs, recs[i])
    ensures CompareRecords(os, dirs, alg, recs).cz == CompareRecords(os, dirs, alg, recs[..i] + recs[i + 1..]).cz
  {
    var a, x, b := recs[..i], recs[i], recs[i + 1..];
    assert recs == (a + [x]) + b;
    assert ResolvedOnly(os, dirs, [x]) == [] by {
      assert [x][..0] == [];
    }
    ResolvedOnlyAppend(os, dirs, a + [x], b);
    ResolvedOnlyAppend(os, dirs, a, [x]);
    ResolvedOnlyAppend(os, dirs, a, b);
    CompareAccounting(os, dirs, alg, recs);
    CompareAccounting(os, dirs, alg, a + b);
  }

  lemma DeletedStreamsNothing(os: Os, dirs: seq<Path>, alg: Algorithm, recs: seq<FileInfo>, i: nat)
    requires i < |recs| && !Resolved(os, dirs, recs[i])
    ensures CompareRecords(os, dirs, alg, recs).streamed ==
      CompareRecords(os, dirs, alg, recs[..i] + recs[i + 1..]).streamed
  {
    var a, x, b := recs[..i], recs[i], recs[i + 1..];
    assert recs == (a + [x]) + b;
    assert CompareRecords(os, dirs, alg, [x]).streamed == [] by {
      assert [x][..0] == [];
    }
    StreamedAppend(os, dirs, alg, a + [x], b);
    StreamedAppend(os, dirs, alg, a, [x]);
    StreamedAppend(os, dirs, alg, a, b);
  }

  /** The trailer as the manifest's writer lays it out: count, total size
      (8 bytes each, big-endian) and the global checksum. */
  function EncodeTrailer(cz: Coze, sum: seq<byte>): (t: seq<byte>)
    ensures |t| == 16 + |sum|
  {
    EncodeUint64(cz.count) + EncodeUint64(cz.size) + sum
  }

  /** compare accepts exactly when the stream holds both integers and a
      full checksum, the integers equal the aggregate, and the checksum
      equals the global sum; a count/size mismatch is reported before the
      checksum is read. */
  lemma TrailerAccepts(tail: seq<byte>, n: nat, cz: Coze, global: seq<byte>)
    requires n > 0
    ensures var v := TrailerVerdict(tail, n, cz, global);
      (v.err.None? <==>
        |tail| >= 16 + n && DecodeUint64(tail[..8]) == cz.count &&
        DecodeUint64(tail[8..16]) == cz.size && tail[16..16 + n] == global) &&
      (|tail| >= 16 && Coze(DecodeUint64(tail[..8]), DecodeUint64(tail[8..16])) != cz ==>
        v.err == Some(CountMismatch(cz, Coze(DecodeUint64(tail[..8]), DecodeUint64(tail[8..16])))))
  {
    if |tail| >= 16 {
      assert tail[8..][..8] == tail[8..16];
      assert tail[8..][8..] == tail[16..];
      if |tail| >= 16 + n {
        assert tail[16..][..n] == tail[16..16 + n];
      }
    }
  }

  /** Once count and size match, the checksum decides: a stream too short
      for it gives ChecksumTruncated with the compare pass's aggregate and
      drains the stream; a full but different checksum gives GlobalMismatch
      with the trailer's aggregate (equal to it) and leaves the stream after
      the checksum; a matching one is accepted. */
  lemma TrailerChecksumVerdicts(tail: seq<byte>, n: nat, cz: Coze, global: seq<byte>)
    requires |tail| >= 16
    requires Coze(DecodeUint64(tail[..8]), DecodeUint64(tail[8..16])) == cz
    ensures var v := TrailerVerdict(tail, n, cz, global);
      (|tail| < 16 + n ==> v == Verdict(cz, Some(ChecksumTruncated), [])) &&
      (|tail| >= 16 + n && tail[16..16 + n] != global ==>
        v == Verdict(cz, Some(GlobalMismatch(global, tail[16..16 + n])), tail[16 + n..])) &&
      (|tail| >= 16 + n && tail[16..16 + n] == global ==> v == Verdict(cz, None, tail[16 + n..]))
  {
    assert tail[8..][..8] == tail[8..16];
    assert tail[8..][8..] == tail[16..];
    if |tail| >= 16 + n {
      assert tail[16..][..n] == tail[16..16 + n];
      assert tail[16..][n..] == tail[16 + n..];
    }
  }

  /** A trailer shorter than the two integers: the missing ones read as 0
      and the stream ends, so the checksum compared is empty. */
  lemma TrailerShortVerdicts(tail: seq<byte>, n: nat, cz: Coze, global: seq<byte>)
    requires |tail| < 16
    ensures var z := Coze(if |tail| >= 8 then DecodeUint64(tail[..8]) else 0, 0);
      var v := TrailerVerdict(tail, n, cz, global);
      (cz != z ==> v == Verdict(z, Some(CountMismatch(cz, z)), [])) &&
      (cz == z && n > 0 ==> v == Verdict(cz, Some(ChecksumTruncated), [])) &&
      (cz == z && n == 0 ==> v == Verdict(z, if global == [] then None else Some(GlobalMismatch(global, [])), []))
  {
  }

  /** Trailer round trip: the trailer the writer lays out for an aggregate
      and a checksum is accepted for exactly that aggregate and checksum,
      and compare leaves the stream right after it. */
  lemma TrailerRoundTrip(cz: Coze, sum: seq<byte>, rest: seq<byte>)
    ensures TrailerVerdict(EncodeTrailer(cz, sum) + rest, |sum|, cz, sum) == Verdict(cz, None, rest)
  {
    var tail := EncodeTrailer(cz, sum) + rest;
    assert tail[..8] == EncodeUint64(cz.count);
    assert tail[8..][..8] == EncodeUint64(cz.size);
    assert tail[8..][8..] == sum + rest;
    assert (sum + rest)[..|sum|] == sum;
  }

  /** The bytes of each record's file, in manifest order: what the writer
      hashed into the global checksum. */
  function TreeBytes(os: Os, dirs: seq<Path>, recs: seq<FileInfo>): seq<byte>
  {
    if recs == [] then []
    else
      var p := Resolve(os, dirs, recs[|recs| - 1]).file;
      TreeBytes(os, dirs, recs[..|recs| - 1]) + (if p in os.fs then os.fs[p].data else [])
  }

  /** Every record is found and unchanged. */
  predicate Intact(alg: Algorithm, os: Os, dirs: seq<Path>, recs: seq<FileInfo>)
  {
    forall i :: 0 <= i < |recs| ==>
      Resolved(os, dirs, recs[i]) && Unchanged(alg, os, Resolve(os, dirs, recs[i]).file, recs[i])
  }

  lemma {:induction false} IntactStreams(alg: Algorithm, os: Os, dirs: seq<Path>, recs: seq<FileInfo>)
    requires Intact(alg, os, dirs, recs)
    ensures CompareRecords(os, dirs, alg, recs).streamed == TreeBytes(os, dirs, recs)
    ensures ResolvedOnly(os, dirs, recs) == recs
  {
    if recs != [] {
      var init := recs[..|recs| - 1];
      assert Intact(alg, os, dirs, init) by {
        forall i | 0 <= i < |init| ensures init[i] == recs[i] { }
      }
      IntactStreams(alg, os, dirs, init);
      assert Resolved(os, dirs, recs[|recs| - 1]);
    }
  }

  /** A tree that matches its manifest verifies: every record is Identical,
      the aggregate holds every record and their total size, the digest is
      fed every file's bytes in manifest order, and the trailer the writer
      recorded for that tree is accepted. */
  lemma IntactTreeVerifies(alg: Algorithm, os: Os, dirs: seq<Path>, recs: seq<FileInfo>, rest: seq<byte>)
    requires SizeExact(alg)
    requires Intact(alg, os, dirs, recs)
    ensures var run := CompareRecords(os, dirs, alg, recs);
      |run.lines| == |recs| &&
      (forall i :: 0 <= i < |recs| ==> run.lines[i].status == Identical) &&
      run.cz == Coze(|recs| % TWO_TO_64, Sum(Sizes(recs)) % TWO_TO_64) &&
      run.streamed == TreeBytes(os, dirs, recs) &&
      TrailerVerdict(EncodeTrailer(Tally(Sizes(recs)), alg.sum(TreeBytes(os, dirs, recs))) + rest,
                     alg.size, run.cz, alg.sum(run.streamed)).err.None?
  {
    var run := CompareRecords(os, dirs, alg, recs);
    LinesLength(os, dirs, alg, recs);
    forall i | 0 <= i < |recs| ensures run.lines[i].status == Identical {
      ClassifyExact(os, dirs, alg, recs, i);
    }
    IntactStreams(alg, os, dirs, recs);
    CompareAccounting(os, dirs, alg, recs);
    TallyTotals(Sizes(recs));
    var sum := alg.sum(TreeBytes(os, dirs, recs));
    TrailerRoundTrip(run.cz, sum, rest);
  }

  /** compareFiles counts only found records, so when any record is missing
      the aggregate's count falls short of the number of records. */
  lemma MissingRecordShortensCount(alg: Algorithm, os: Os, dirs: seq<Path>, recs: seq<FileInfo>, i: nat)
    requires i < |recs| < TWO_TO_64 && !Resolved(os, dirs, recs[i])
    ensures CompareRecords(os, dirs, alg, recs).cz.count < |recs|
  {
    CompareAccounting(os, dirs, alg, recs);
    ResolvedOnlyDrops(os, dirs, recs, i);
  }

  /** A manifest with a missing record has fewer found records than
      records. */
  lemma {:induction false} ResolvedOnlyDrops(os: Os, dirs: seq<Path>, recs: seq<FileInfo>, i: nat)
    requires i < |recs| && !Resolved(os, dirs, recs[i])
    ensures |ResolvedOnly(os, dirs, recs)| < |recs|
  {
    var init := recs[..|recs| - 1];
    if i < |recs| - 1 {
      ResolvedOnlyDrops(os, dirs, init, i);
    } else {
      ResolvedOnlyShorter(os, dirs, init);
    }
  }

  /** Hence a trailer written for the whole manifest fails with a
      count/size mismatch, before its checksum is read. */
  lemma MissingRecordFailsTrailer(alg: Algorithm, os: Os, dirs: seq<Path>, recs: seq<FileInfo>, i: nat,
                                  sum: seq<byte>, rest: seq<byte>, global: seq<byte>)
    requires i < |recs| < TWO_TO_64 && !Resolved(os, dirs, recs[i])
    ensures var cz := CompareRecords(os, dirs, alg, recs).cz;
      TrailerVerdict(EncodeTrailer(Tally(Sizes(recs)), sum) + rest, |sum|, cz, global).err ==
        Some(CountMismatch(cz, Tally(Sizes(recs))))
  {
    var cz := CompareRecords(os, dirs, alg, recs).cz;
    MissingRecordShortensCount(alg, os, dirs, recs, i);
    TallyTotals(Sizes(recs));
    var declared := Tally(Sizes(recs));
    assert declared.count == |recs|;
    var tail := EncodeTrailer(declared, sum) + rest;
    assert tail[..8] == EncodeUint64(declared.count);
    assert tail[8..][..8] == EncodeUint64(declared.size);
  }

  lemma {:induction false} ResolvedOnlyShorter(os: Os, dirs: seq<Path>, recs: seq<FileInfo>)
    ensures |ResolvedOnly(os, dirs, recs)| <= |recs|
  {
    if recs != [] {
      ResolvedOnlyShorter(os, dirs, recs[..|recs| - 1]);
    }
  }

  /** List either names the first record no directory holds, with the
      aggregate of the records before it, or holds the number of records
      and the sum of their recorded sizes (modulo 2^64). */
  lemma ListOutcome(os: Os, dirs: seq<Path>, recs: seq<FileInfo>)
    ensures var l := ListRecords(os, dirs, recs);
      (l.missing.None? <==> forall i :: 0 <= i < |recs| ==> Resolved(os, dirs, recs[i])) &&
      (l.missing.None? ==> l.cz == Coze(|recs| % TWO_TO_64, Sum(Sizes(recs)) % TWO_TO_64)) &&
      (l.missing.Some? ==>
        exists k :: 0 <= k < |recs| && l.missing.value == recs[k].file && !Resolved(os, dirs, recs[k]) &&
          (forall j :: 0 <= j < k ==> Resolved(os, dirs, recs[j])) &&
          l.cz == Coze(k % TWO_TO_64, Sum(Sizes(recs[..k])) % TWO_TO_64))
  {
    var k := FirstUnresolved(os, dirs, recs);
    TallyTotals(Sizes(recs));
    if k < |recs| {
      TallyTotals(Sizes(recs[..k]));
    }
  }

  /** When every record is found, List and compareFiles reach the same
      aggregate. */
  lemma ListAgreesWithCompare(alg: Algorithm, os: Os, dirs: seq<Path>, recs: seq<FileInfo>)
    requires ListRecords(os, dirs, recs).missing.None?
    ensures ListRecords(os, dirs, recs).cz == CompareRecords(os, dirs, alg, recs).cz
  {
    ListOutcome(os, dirs, recs);
    AllResolved(os, dirs, recs);
    CompareAccounting(os, dirs, alg, recs);
    TallyTotals(Sizes(recs));
  }

  lemma {:induction false} AllResolved(os: Os, dirs: seq<Path>, recs: seq<FileInfo>)
    requires forall i :: 0 <= i < |recs| ==> Resolved(os, dirs, recs[i])
    ensures ResolvedOnly(os, dirs, recs) == recs
  {
    if recs != [] {
      AllResolved(os, dirs, recs[..|recs| - 1]);
    }
  }

  /** The header names its algorithm: whatever NUL padding surrounds a name
      without NUL ends in the 16 header bytes, trimming recovers the name,
      and opening fails exactly when the registry does not know it. */
  lemma HeaderSelects(a: nat, name: seq<byte>, b: nat, more: seq<byte>, m: Manifest, registry: Registry)
    requires NulFree(name) && a + |name| + b == 16
    requires m.head == Zeros(a) + name + Zeros(b) + more
    ensures HeaderName(m.head) == Some(name)
    ensures OpenCheck(Some(m), registry) == if name in registry then None else Some(UnknownAlgorithm(name))
  {
    assert m.head[..16] == Zeros(a) + name + Zeros(b);
    TrimPadded(a, name, b);
  }
}
