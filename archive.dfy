/**
 * The order and skip behaviour of the `/download/:code` loop: one fetch per
 * file of the session, in the session's order; a file whose fetch throws is
 * logged and left out, and the archive is finalised with the rest. The zip
 * stream itself is not modelled, only the names of the entries appended.
 *
 * `failed` holds the positions (in `session.files`) whose fetch throws.
 */
module Archive {
  import opened Sessions

  /**
   * The positions below `n` whose fetch succeeds, in increasing order:
   * exactly the positions below `n` that did not fail.
   */
  function KeptPositions(n: nat, failed: set<nat>): (kept: seq<nat>)
    ensures forall j :: 0 <= j < |kept| ==> kept[j] < n
    ensures forall i, j :: 0 <= i < j < |kept| ==> kept[i] < kept[j]
    ensures forall p: nat :: p in kept <==> p < n && p !in failed
    decreases n
  {
    if n == 0 then []
    else
      var prev := KeptPositions(n - 1, failed);
      var tail: seq<nat> := if n - 1 in failed then [] else [n - 1];
      assert forall p: nat :: p in prev + tail <==> p in prev || p in tail;
      prev + tail
  }

  /**
   * The archive entry names appended for `files`: entry `j` is the name of
   * the `j`-th kept file, so the session's order is kept and exactly the
   * failed fetches are left out.
   */
  function ArchiveEntries(files: seq<FileDescriptor>, failed: set<nat>): (entries: seq<string>)
    ensures var kept := KeptPositions(|files|, failed);
      |entries| == |kept| && forall j :: 0 <= j < |kept| ==> entries[j] == files[kept[j]].name
    decreases |files|
  {
    if files == [] then []
    else
      var n := |files| - 1;
      assert forall i :: 0 <= i < n ==> files[..n][i] == files[i];
      ArchiveEntries(files[..n], failed) + (if n in failed then [] else [files[n].name])
  }

  /** With no failure every position is kept, in order. */
  lemma {:induction false} KeptAllWithoutFailures(n: nat)
    ensures |KeptPositions(n, {})| == n
    ensures forall j :: 0 <= j < n ==> KeptPositions(n, {})[j] == j
    decreases n
  {
    if n > 0 {
      KeptAllWithoutFailures(n - 1);
      assert KeptPositions(n, {}) == KeptPositions(n - 1, {}) + [n - 1];
    }
  }

  /** With no fetch failure the archive holds every file's name, in the session's order. */
  lemma ArchiveWithoutFailures(files: seq<FileDescriptor>)
    ensures |ArchiveEntries(files, {})| == |files|
    ensures forall i :: 0 <= i < |files| ==> ArchiveEntries(files, {})[i] == files[i].name
  {
    KeptAllWithoutFailures(|files|);
  }

  /** Three files, the second one unreachable: the archive holds the first and the third. */
  lemma SecondOfThreeFails(a: FileDescriptor, b: FileDescriptor, c: FileDescriptor)
    ensures ArchiveEntries([a, b, c], {1}) == [a.name, c.name]
  {
    assert [a, b, c][..2] == [a, b];
    assert [a, b][..1] == [a];
    assert [a][..0] == [];
    assert ArchiveEntries([a], {1}) == [a.name];
    assert ArchiveEntries([a, b], {1}) == [a.name];
  }

  /** The `/download/:code` answer: a zip named `<code>.zip` or the 404. */
  datatype DownloadReply = ZipArchive(fileName: string, entries: seq<string>) | DownloadNotFound
}
