/** Manifest records and the file system they are checked against. The file
    system, path joining and path cleaning are inputs: the operating system
    and the path library are not part of this model. */
module Files {
  import opened Wrappers
  import opened Words
  import opened Digests

  type Path = string

  /** One manifest record: the path, the recorded size and the recorded
      checksum ("Curr"). */
  datatype FileInfo = FileInfo(file: Path, size: uint64, curr: seq<byte>)

  /** What the operating system holds at a path: whether Stat reports a
      regular file, whether Open succeeds, the bytes a read delivers, and
      whether the read ends in an error after delivering them. */
  datatype Node = Node(regular: bool, opens: bool, data: seq<byte>, readFails: bool)

  /** The environment: the file system as seen by Stat/Open, and the
      filepath.Join and filepath.Clean functions. */
  datatype Os = Os(fs: map<Path, Node>, join: (Path, Path) -> Path, clean: Path -> Path)

  /** os.Stat succeeds and reports a regular file. */
  predicate IsRegular(os: Os, p: Path)
  {
    p in os.fs && os.fs[p].regular
  }

  /** The index of the first directory, in list order, under which the path
      is a regular file; |dirs| when there is none. */
  function FirstRegular(os: Os, dirs: seq<Path>, name: Path): (k: nat)
    ensures k <= |dirs|
  {
    if dirs == [] then 0
    else if IsRegular(os, os.join(dirs[0], name)) then 0
    else 1 + FirstRegular(os, dirs[1..], name)
  }

  /** First match: no earlier directory holds a regular file at the path,
      and the chosen one, if any, does. */
  lemma {:induction false} FirstRegularIsFirst(os: Os, dirs: seq<Path>, name: Path)
    ensures var k := FirstRegular(os, dirs, name);
      (forall j :: 0 <= j < k ==> !IsRegular(os, os.join(dirs[j], name))) &&
      (k < |dirs| ==> IsRegular(os, os.join(dirs[k], name)))
  {
    if dirs != [] && !IsRegular(os, os.join(dirs[0], name)) {
      FirstRegularIsFirst(os, dirs[1..], name);
      assert forall j :: 1 <= j < |dirs| ==> dirs[j] == dirs[1..][j - 1];
    }
  }

  predicate Resolved(os: Os, dirs: seq<Path>, fi: FileInfo)
  {
    FirstRegular(os, dirs, fi.file) < |dirs|
  }

  /** The record as lookupFile returns it: with the joined path of the first
      matching directory, or unchanged when no directory matches. */
  function Resolve(os: Os, dirs: seq<Path>, fi: FileInfo): FileInfo
  {
    var k := FirstRegular(os, dirs, fi.file);
    if k < |dirs| then fi.(file := os.join(dirs[k], fi.file)) else fi
  }

  /** Why digestFile rejected a file. */
  datatype FileError =
    | OpenFailed
    | ReadFailed
    | SizeMismatch(recordedSize: uint64, streamed: nat)
    | ChecksumMismatch(recordedSum: seq<byte>, computed: seq<byte>)

  /** The bytes io.Copy writes into the digest when the file at p is
      streamed: nothing when Open fails, otherwise what the read delivered. */
  function Streamed(os: Os, p: Path): seq<byte>
  {
    if p in os.fs && os.fs[p].opens then os.fs[p].data else []
  }

  /** The outcome of digestFile on a record, when the digest's local state
      held `prior` before the file was streamed, in the order digestFile
      checks them: open, read, size (against int64 of the recorded size),
      checksum. Open fails first, and a reported checksum is the one of the
      local state after streaming. */
  function FileCheck(alg: Algorithm, os: Os, fi: FileInfo, prior: seq<byte>): (r: Option<FileError>)
    ensures r == Some(OpenFailed) <==> !(fi.file in os.fs && os.fs[fi.file].opens)
    ensures r.Some? && r.value.ChecksumMismatch? ==>
      r.value.computed == alg.sum(prior + Streamed(os, fi.file)) && r.value.computed != fi.curr
  {
    if fi.file !in os.fs || !os.fs[fi.file].opens then Some(OpenFailed)
    else
      var node := os.fs[fi.file];
      if node.readFails then Some(ReadFailed)
      else if |node.data| != Int64Of(fi.size) then Some(SizeMismatch(fi.size, |node.data|))
      else if alg.sum(prior + node.data) != fi.curr then Some(ChecksumMismatch(fi.curr, alg.sum(prior + node.data)))
      else None
  }

  /** The failures between open and checksum, in digestFile's order: a read
      error once the file opens, then a size mismatch once the read is
      clean, carrying the recorded size and the number of bytes streamed. */
  lemma FileCheckOrder(alg: Algorithm, os: Os, fi: FileInfo, prior: seq<byte>)
    ensures var r := FileCheck(alg, os, fi, prior);
      var opens := fi.file in os.fs && os.fs[fi.file].opens;
      (r == Some(ReadFailed) <==> opens && os.fs[fi.file].readFails) &&
      (r.Some? && r.value.SizeMismatch? <==>
        opens && !os.fs[fi.file].readFails && |os.fs[fi.file].data| != Int64Of(fi.size)) &&
      (r.Some? && r.value.SizeMismatch? ==>
        r.value.recordedSize == fi.size && r.value.streamed == |Streamed(os, fi.file)|)
  {
  }

  /** digestFile succeeds exactly when the file opens, reads without error,
      delivers as many bytes as recorded (a recorded size of 2^63 or more
      never matches, being negative once converted to int64), and the sum of
      the local state equals the recorded checksum. */
  lemma FileCheckAccepts(alg: Algorithm, os: Os, fi: FileInfo, prior: seq<byte>)
    ensures FileCheck(alg, os, fi, prior).None? <==>
      fi.file in os.fs && os.fs[fi.file].opens && !os.fs[fi.file].readFails &&
      fi.size < TWO_TO_63 && |os.fs[fi.file].data| == fi.size &&
      alg.sum(prior + os.fs[fi.file].data) == fi.curr
  {
    if fi.file in os.fs && os.fs[fi.file].opens && !os.fs[fi.file].readFails {
      var n := |os.fs[fi.file].data|;
      assert n == Int64Of(fi.size) <==> fi.size < TWO_TO_63 && n == fi.size;
    }
  }
}
