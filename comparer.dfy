/** The reconciliation engine: reads the manifest header, resolves each
    record against candidate directories, classifies it, keeps the running
    aggregate and the two digest states, and checks the trailer. */
module Comparing {
  import opened Wrappers
  import opened Words
  import opened Digests
  import opened Aggregate
  import opened Files

  /** Per-record classification. Added is part of the status alphabet, but
      no operation here produces it. */
  datatype Status = Deleted | Identical | Modified | Added

  /** The status letter printed in compare mode. */
  function StatusChar(st: Status): (c: char)
    ensures c in {'D', 'I', 'M', 'A'}
  {
    match st
    case Deleted => 'D'
    case Identical => 'I'
    case Modified => 'M'
    case Added => 'A'
  }

  /** The four letters are distinct, so a report letter names its status. */
  lemma StatusCharInjective(a: Status, b: Status)
    ensures StatusChar(a) == StatusChar(b) ==> a == b
  {
  }

  /** What compare mode reports for one record: status, recorded size, the
      digest's local sum at that point, and the (resolved) path. */
  datatype Line = Line(status: Status, size: uint64, sum: seq<byte>, file: Path)

  /** One record's outcome and the bytes it streamed into the digest. */
  datatype Step = Step(line: Line, streamed: seq<byte>)

  /** The outcome of one iteration of compareFiles, with the local state
      empty when the record is reached. */
  function Reconcile(os: Os, dirs: seq<Path>, alg: Algorithm, fi: FileInfo): Step
  {
    if Resolved(os, dirs, fi) then
      var r := Resolve(os, dirs, fi);
      var bytes := Streamed(os, r.file);
      var st := if FileCheck(alg, os, r, []).None? then Identical else Modified;
      Step(Line(st, r.size, alg.sum(bytes), r.file), bytes)
    else
      Step(Line(Deleted, fi.size, alg.sum([]), fi.file), [])
  }

  /** One record's line: Deleted exactly when no directory holds it; the
      resolved path and the recorded size; a sum over exactly the bytes the
      record streamed, which are the resolved file's bytes for a found
      record, modified or not, and none for a deleted record. */
  lemma ReconcileLine(os: Os, dirs: seq<Path>, alg: Algorithm, fi: FileInfo)
    ensures var s := Reconcile(os, dirs, alg, fi);
      (s.line.status == Deleted <==> !Resolved(os, dirs, fi)) &&
      s.line.file == Resolve(os, dirs, fi).file && s.line.size == fi.size &&
      s.line.sum == alg.sum(s.streamed) &&
      (Resolved(os, dirs, fi) ==> s.streamed == Streamed(os, Resolve(os, dirs, fi).file)) &&
      (!Resolved(os, dirs, fi) ==> s.streamed == [])
  {
  }

  /** A whole compare pass: the report lines, the aggregate, and every byte
      written into the digest, in order. */
  datatype Run = Run(lines: seq<Line>, cz: Coze, streamed: seq<byte>)

  function CompareRecords(os: Os, dirs: seq<Path>, alg: Algorithm, recs: seq<FileInfo>): Run
  {
    if recs == [] then Run([], Zero, [])
    else
      var prev := CompareRecords(os, dirs, alg, recs[..|recs| - 1]);
      var fi := recs[|recs| - 1];
      var step := Reconcile(os, dirs, alg, fi);
      var cz := if Resolved(os, dirs, fi) then prev.cz.Update(fi.size) else prev.cz;
      Run(prev.lines + [step.line], cz, prev.streamed + step.streamed)
  }

  lemma CompareRecordsSnoc(os: Os, dirs: seq<Path>, alg: Algorithm, recs: seq<FileInfo>, i: nat)
    requires i < |recs|
    ensures var prev := CompareRecords(os, dirs, alg, recs[..i]);
      var step := Reconcile(os, dirs, alg, recs[i]);
      CompareRecords(os, dirs, alg, recs[..i + 1]) ==
        Run(prev.lines + [step.line],
            if Resolved(os, dirs, recs[i]) then prev.cz.Update(recs[i].size) else prev.cz,
            prev.streamed + step.streamed)
  {
    assert recs[..i + 1][..i] == recs[..i];
  }

  /** What one iteration of compareFiles computes is Reconcile's step. */
  lemma LineOfRecord(os: Os, dirs: seq<Path>, alg: Algorithm, item: FileInfo,
                     found: bool, fi: FileInfo, st: Status, local: seq<byte>)
    requires found == Resolved(os, dirs, item)
    requires found ==>
      (fi == Resolve(os, dirs, item) && local == Streamed(os, fi.file) &&
       st == (if FileCheck(alg, os, fi, []).None? then Identical else Modified))
    requires !found ==> fi == item && local == [] && st == Deleted
    ensures Reconcile(os, dirs, alg, item) == Step(Line(st, fi.size, alg.sum(local), fi.file), local)
  {
  }

  /** The digest's global log after one more record of compareFiles. */
  lemma CompareRecordsStep(os: Os, dirs: seq<Path>, alg: Algorithm, recs: seq<FileInfo>, i: nat,
                           g0: seq<byte>, before: seq<byte>, bytes: seq<byte>)
    requires i < |recs|
    requires before == g0 + CompareRecords(os, dirs, alg, recs[..i]).streamed
    requires bytes == Reconcile(os, dirs, alg, recs[i]).streamed
    ensures before + bytes == g0 + CompareRecords(os, dirs, alg, recs[..i + 1]).streamed
  {
    CompareRecordsSnoc(os, dirs, alg, recs, i);
  }

  /** The recorded sizes, in manifest order. */
  function Sizes(recs: seq<FileInfo>): (s: seq<uint64>)
    ensures |s| == |recs|
    ensures forall i :: 0 <= i < |recs| ==> s[i] == recs[i].size
  {
    if recs == [] then [] else Sizes(recs[..|recs| - 1]) + [recs[|recs| - 1].size]
  }

  /** The index of the first record that no directory holds; |recs| when all
      are found. */
  function FirstUnresolved(os: Os, dirs: seq<Path>, recs: seq<FileInfo>): (k: nat)
    ensures k <= |recs|
    ensures forall j :: 0 <= j < k ==> Resolved(os, dirs, recs[j])
    ensures k < |recs| ==> !Resolved(os, dirs, recs[k])
  {
    if recs == [] then 0
    else if !Resolved(os, dirs, recs[0]) then 0
    else
      var k := 1 + FirstUnresolved(os, dirs, recs[1..]);
      assert forall j :: 1 <= j < k ==> recs[j] == recs[1..][j - 1];
      k
  }

  /** The result of List: the aggregate so far, and the path of the record
      that stopped it, if any. */
  datatype Listing = Listing(cz: Coze, missing: Option<Path>)

  function ListRecords(os: Os, dirs: seq<Path>, recs: seq<FileInfo>): Listing
  {
    var k := FirstUnresolved(os, dirs, recs);
    if k < |recs| then Listing(Tally(Sizes(recs[..k])), Some(recs[k].file))
    else Listing(Tally(Sizes(recs)), None)
  }

  /** One more record of List: it is resolved, so the first unresolved one
      lies further on, and the aggregate grows by its size. */
  lemma ListStep(os: Os, dirs: seq<Path>, recs: seq<FileInfo>, i: nat)
    requires i < |recs| && i <= FirstUnresolved(os, dirs, recs)
    requires Resolved(os, dirs, recs[i])
    ensures i + 1 <= FirstUnresolved(os, dirs, recs)
    ensures Tally(Sizes(recs[..i + 1])) == Tally(Sizes(recs[..i])).Update(recs[i].size)
  {
    assert recs[..i + 1][..i] == recs[..i];
  }

  /** The stream left after List: everything past the failing record, or
      nothing. */
  function ListRest(os: Os, dirs: seq<Path>, recs: seq<FileInfo>): seq<FileInfo>
  {
    var k := FirstUnresolved(os, dirs, recs);
    if k < |recs| then recs[k + 1..] else []
  }

  /** Where List stops: at an unresolved record, or after the last one. */
  lemma ListStopsAt(os: Os, dirs: seq<Path>, recs: seq<FileInfo>, i: nat)
    requires i <= |recs| && i <= FirstUnresolved(os, dirs, recs)
    requires i < |recs| ==> !Resolved(os, dirs, recs[i])
    ensures i < |recs| ==> ListRecords(os, dirs, recs) == Listing(Tally(Sizes(recs[..i])), Some(recs[i].file))
    ensures i < |recs| ==> ListRest(os, dirs, recs) == recs[i + 1..]
    ensures i == |recs| ==> ListRecords(os, dirs, recs) == Listing(Tally(Sizes(recs)), None)
    ensures i == |recs| ==> ListRest(os, dirs, recs) == []
  {
  }

  /** The trailer failures compare reports. */
  datatype TrailerError =
    | CountMismatch(accumulated: Coze, declared: Coze)
    | ChecksumTruncated
    | GlobalMismatch(computed: seq<byte>, recordedSum: seq<byte>)

  /** binary.Read of a big-endian uint64 whose error is ignored: on a short
      stream the value stays 0 and the stream is drained. */
  function TakeUint64(s: seq<byte>): (r: (uint64, seq<byte>))
    ensures |s| >= 8 ==> EncodeUint64(r.0) == s[..8] && r.1 == s[8..]
    ensures |s| < 8 ==> r == (0, [])
  {
    if |s| >= 8 then
      DecodeUint64Inverse(s[..8]);
      (DecodeUint64(s[..8]), s[8..])
    else (0, [])
  }

  /** compare's outcome: the aggregate it returns, its error, and the stream
      it leaves. */
  datatype Verdict = Verdict(z: Coze, err: Option<TrailerError>, rest: seq<byte>)

  /** compare only consumes the stream; on success, and on a count/size
      mismatch, it returns the trailer's own aggregate, which on success is
      the compare pass's. */
  function TrailerVerdict(tail: seq<byte>, n: nat, cz: Coze, global: seq<byte>): (v: Verdict)
    ensures |v.rest| <= |tail|
    ensures v.err.None? ==> v.z == cz
    ensures v.err.Some? && v.err.value.CountMismatch? ==>
      v.err.value.accumulated == cz && v.err.value.declared == v.z && v.z != cz
  {
    var (count, t1) := TakeUint64(tail);
    var (size, t2) := TakeUint64(t1);
    var z := Coze(count, size);
    if cz != z then Verdict(z, Some(CountMismatch(cz, z)), t2)
    else if |t2| < n then Verdict(cz, Some(ChecksumTruncated), [])
    else if global != t2[..n] then Verdict(z, Some(GlobalMismatch(global, t2[..n])), t2[n..])
    else Verdict(z, None, t2[n..])
  }

  /** The directory list after the in-place filepath.Clean loop. */
  function CleanAll(os: Os, dirs: seq<Path>): (r: seq<Path>)
    ensures |r| == |dirs|
    ensures forall i :: 0 <= i < |dirs| ==> r[i] == os.clean(dirs[i])
  {
    if dirs == [] then [] else CleanAll(os, dirs[..|dirs| - 1]) + [os.clean(dirs[|dirs| - 1])]
  }

  method CleanDirs(dirs: array<Path>, os: Os)
    modifies dirs
    ensures dirs[..] == CleanAll(os, old(dirs[..]))
  {
    var i := 0;
    while i < dirs.Length
      invariant 0 <= i <= dirs.Length
      invariant forall j :: 0 <= j < i ==> dirs[j] == os.clean(old(dirs[j]))
      invariant forall j :: i <= j < dirs.Length ==> dirs[j] == old(dirs[j])
    {
      dirs[i] := os.clean(dirs[i]);
      i := i + 1;
    }
  }

  /** The manifest file as the model sees it: the bytes ahead of the record
      section (a well-formed manifest has exactly the 16 header bytes there),
      the records the decoder delivers, and the bytes after the last record. */
  datatype Manifest = Manifest(head: seq<byte>, records: seq<FileInfo>, trailer: seq<byte>)

  datatype OpenError = CannotOpen | ShortHeader | UnknownAlgorithm(name: seq<byte>)

  /** The algorithm name: the 16 header bytes with NUL bytes trimmed at both
      ends; none when fewer than 16 bytes are available. */
  function HeaderName(head: seq<byte>): (r: Option<seq<byte>>)
    ensures r.Some? <==> |head| >= 16
    ensures r.Some? ==> NulFree(r.value) && exists i :: PaddedAt(head[..16], r.value, i)
  {
    if |head| < 16 then None
    else
      TrimNulPadded(head[..16]);
      Some(TrimNul(head[..16]))
  }

  /** Which of NewComparer's failures occurs, in the order it checks them. */
  function OpenCheck(file: Option<Manifest>, registry: Registry): (e: Option<OpenError>)
    ensures e == Some(CannotOpen) <==> file.None?
    ensures e == Some(ShortHeader) <==> file.Some? && |file.value.head| < 16
    ensures e.None? <==> file.Some? && |file.value.head| >= 16 && TrimNul(file.value.head[..16]) in registry
  {
    if file.None? then Some(CannotOpen)
    else
      match HeaderName(file.value.head)
      case None => Some(ShortHeader)
      case Some(name) => if name in registry then None else Some(UnknownAlgorithm(name))
  }

  class Comparer {
    const digest: Digest
    /** Records the decoder has not delivered yet. */
    var records: seq<FileInfo>
    /** Stream bytes after the last record. */
    var trailer: seq<byte>

    /** Between operations the digest's local state is empty. */
    ghost predicate Valid()
      reads digest
    {
      digest.localLog == []
    }

    constructor (digest: Digest, records: seq<FileInfo>, trailer: seq<byte>)
      requires digest.localLog == []
      ensures Valid()
      ensures this.digest == digest && this.records == records && this.trailer == trailer
    {
      this.digest := digest;
      this.records := records;
      this.trailer := trailer;
    }

    /** lookupFile: the first directory, in order, where the joined path is
        a regular file. */
    method LookupFile(fi: FileInfo, dirs: seq<Path>, os: Os) returns (r: FileInfo, found: bool)
      ensures found == Resolved(os, dirs, fi)
      ensures found ==> r == fi.(file := os.join(dirs[FirstRegular(os, dirs, fi.file)], fi.file))
      ensures !found ==> r == fi
    {
      FirstRegularIsFirst(os, dirs, fi.file);
      r, found := fi, false;
      var i := 0;
      while i < |dirs|
        invariant 0 <= i <= |dirs|
        invariant forall j :: 0 <= j < i ==> !IsRegular(os, os.join(dirs[j], fi.file))
        invariant !found && r == fi
      {
        var file := os.join(dirs[i], fi.file);
        if IsRegular(os, file) {
          r, found := fi.(file := file), true;
          break;
        }
        i := i + 1;
      }
    }

    /** digestFile: streams the file into the digest and checks its size and
        local sum. */
    method DigestFile(fi: FileInfo, os: Os) returns (err: Option<FileError>)
      modifies digest
      ensures err == FileCheck(digest.alg, os, fi, old(digest.localLog))
      ensures digest.localLog == old(digest.localLog) + Streamed(os, fi.file)
      ensures digest.globalLog == old(digest.globalLog) + Streamed(os, fi.file)
    {
      if fi.file !in os.fs || !os.fs[fi.file].opens {
        return Some(OpenFailed);
      }
      var node := os.fs[fi.file];
      digest.Write(node.data);
      var n := |node.data|;
      if node.readFails {
        return Some(ReadFailed);
      }
      if n != Int64Of(fi.size) {
        return Some(SizeMismatch(fi.size, n));
      }
      var sum := digest.Local();
      if fi.curr != sum {
        return Some(ChecksumMismatch(fi.curr, sum));
      }
      return None;
    }

    /** compareFiles: classifies every remaining record, resetting the local
        state after each one. */
    method CompareFiles(dirs: seq<Path>, os: Os) returns (cz: Coze, report: seq<Line>)
      requires Valid()
      modifies this`records, digest
      ensures Valid() && records == []
      ensures var run := CompareRecords(os, dirs, digest.alg, old(records));
        cz == run.cz && report == run.lines &&
        digest.globalLog == old(digest.globalLog) + run.streamed
    {
      var recs := records;
      ghost var g0 := digest.globalLog;
      cz, report := Zero, [];
      var i := 0;
      while i < |recs|
        invariant 0 <= i <= |recs|
        invariant records == recs[i..]
        invariant digest.localLog == []
        invariant cz == CompareRecords(os, dirs, digest.alg, recs[..i]).cz
        invariant report == CompareRecords(os, dirs, digest.alg, recs[..i]).lines
        invariant digest.globalLog == g0 + CompareRecords(os, dirs, digest.alg, recs[..i]).streamed
        modifies this`records, digest
      {
        var item := recs[i];
        ghost var before := digest.globalLog;
        records := recs[i + 1..];
        var fi, found := LookupFile(item, dirs, os);
        var st: Status;
        if found {
          st := Identical;
          var err := DigestFile(fi, os);
          if err.Some? {
            st := Modified;
          }
          cz := cz.Update(fi.size);
        } else {
          st := Deleted;
        }
        ghost var bytes := digest.localLog;
        LineOfRecord(os, dirs, digest.alg, item, found, fi, st, bytes);
        CompareRecordsStep(os, dirs, digest.alg, recs, i, g0, before, bytes);
        report := report + [Line(st, fi.size, digest.Local(), fi.file)];
        digest.Reset();
        CompareRecordsSnoc(os, dirs, digest.alg, recs, i);
        i := i + 1;
      }
      assert recs[..i] == recs;
    }

    /** io.ReadFull on the rest of the stream. */
    method ReadFull(n: nat) returns (buf: seq<byte>, ok: bool)
      modifies this`trailer
      ensures ok == (n <= |old(trailer)|)
      ensures ok ==> buf == old(trailer)[..n] && trailer == old(trailer)[n..]
      ensures !ok ==> buf == old(trailer) && trailer == []
    {
      if n <= |trailer| {
        buf, ok := trailer[..n], true;
        trailer := trailer[n..];
      } else {
        buf, ok := trailer, false;
        trailer := [];
      }
    }

    /** binary.Read of one big-endian uint64, its error ignored. */
    method ReadUint64() returns (v: uint64)
      modifies this`trailer
      ensures (v, trailer) == TakeUint64(old(trailer))
    {
      var buf, ok := ReadFull(8);
      v := if ok then DecodeUint64(buf) else 0;
    }

    /** compare: checks the trailer's count and size against the aggregate,
        then its checksum against the global sum. */
    method CompareTrailer(cz: Coze) returns (z: Coze, err: Option<TrailerError>)
      modifies this`trailer
      ensures Verdict(z, err, trailer) == TrailerVerdict(old(trailer), digest.Size(), cz, digest.Global())
    {
      var count := ReadUint64();
      var size := ReadUint64();
      z := Coze(count, size);
      if cz != z {
        return z, Some(CountMismatch(cz, z));
      }
      var accu, ok := ReadFull(digest.Size());
      if !ok {
        return cz, Some(ChecksumTruncated);
      }
      var sum := digest.Global();
      if sum != accu {
        return z, Some(GlobalMismatch(sum, accu));
      }
      return z, None;
    }

    /** Compare: cleans the directories in place, classifies every record,
        then checks the trailer. */
    method Compare(dirs: array<Path>, os: Os) returns (cz: Coze, report: seq<Line>, err: Option<TrailerError>)
      requires Valid()
      modifies dirs, this, digest
      ensures Valid() && records == []
      ensures dirs[..] == CleanAll(os, old(dirs[..]))
      ensures var run := CompareRecords(os, dirs[..], digest.alg, old(records));
        cz == run.cz && report == run.lines &&
        digest.globalLog == old(digest.globalLog) + run.streamed &&
        (var v := TrailerVerdict(old(trailer), digest.alg.size, run.cz, digest.alg.sum(digest.globalLog));
         err == v.err && trailer == v.rest)
    {
      CleanDirs(dirs, os);
      cz, report := CompareFiles(dirs[..], os);
      var _, e := CompareTrailer(cz);
      err := e;
    }

    /** Checksum: the global sum, over every byte streamed since the
        digest was created. */
    function Checksum(): (sum: seq<byte>)
      reads digest
      ensures sum == digest.alg.sum(digest.globalLog)
    {
      digest.Global()
    }

    /** List: the aggregate of every record, stopping at the first record no
        directory holds. File contents are not read. */
    method List(dirs: array<Path>, os: Os) returns (cz: Coze, missing: Option<Path>)
      modifies dirs, this`records
      ensures dirs[..] == CleanAll(os, old(dirs[..]))
      ensures Listing(cz, missing) == ListRecords(os, dirs[..], old(records))
      ensures records == ListRest(os, dirs[..], old(records))
    {
      CleanDirs(dirs, os);
      var ds := dirs[..];
      var recs := records;
      cz := Zero;
      var i := 0;
      while i < |recs|
        invariant 0 <= i <= |recs|
        invariant records == recs[i..]
        invariant i <= FirstUnresolved(os, ds, recs)
        invariant cz == Tally(Sizes(recs[..i]))
        modifies this`records
      {
        var item := recs[i];
        records := recs[i + 1..];
        var fi, found := LookupFile(item, ds, os);
        if !found {
          ListStopsAt(os, ds, recs, i);
          return cz, Some(fi.file);
        }
        cz := cz.Update(fi.size);
        ListStep(os, ds, recs, i);
        i := i + 1;
      }
      ListStopsAt(os, ds, recs, i);
      assert recs[..i] == recs;
      missing := None;
    }
  }

  /** NewComparer: opens the manifest and selects the digest algorithm named
      by its header. */
  method NewComparer(file: Option<Manifest>, registry: Registry) returns (c: Comparer?, err: Option<OpenError>)
    ensures err == OpenCheck(file, registry)
    ensures err.Some? ==> c == null
    ensures err.None? ==>
      c != null && fresh(c) && fresh(c.digest) && c.Valid() &&
      c.digest.alg == registry[HeaderName(file.value.head).value] &&
      c.digest.globalLog == [] &&
      c.records == file.value.records && c.trailer == file.value.trailer
  {
    if file.None? {
      return null, Some(CannotOpen);
    }
    var head := file.value.head;
    if |head| < 16 {
      return null, Some(ShortHeader);
    }
    var name := TrimNul(head[..16]);
    var d := NewDigest(name, registry);
    if d.None? {
      return null, Some(UnknownAlgorithm(name));
    }
    c := new Comparer(d.value, file.value.records, file.value.trailer);
    err := None;
  }
}
