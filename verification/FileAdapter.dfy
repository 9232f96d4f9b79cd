/**
  The file system under the segment store (cpp/core/FileAdapter.hpp, PosixFileAdapter.hpp), as an
  adversary: every call may fail, and a failed append may leave any strict prefix behind.
 */
module FileAdapters {
  import opened Wrappers
  import opened SegmentCodec
  import opened Replay
  import opened SegmentInvariant
  import opened SegmentRecovery

  class FileAdapter {
    /** Content of the segment files. Names that are no segment name do not matter to the store. */
    var files: Disk

    /** Every content the disk has had: the process may have stopped at any of these. */
    ghost var instants: seq<Disk>

    /** How many calls have failed. */
    ghost var failures: nat

    constructor (files: Disk)
      ensures this.files == files && instants == [files] && failures == 0
    {
      this.files := files;
      instants := [files];
      failures := 0;
    }

    /** Lists the segment ids, or fails. */
    method ReadDirectory() returns (ids: Option<set<nat>>)
      modifies this`failures
      ensures ids.Some? ==> ids.value == files.Keys && failures == old(failures)
      ensures ids.None? ==> failures > old(failures)
    {
      var ok: bool := *;
      if ok {
        return Some(files.Keys);
      }
      failures := failures + 1;
      return None;
    }

    /** Reads a whole file, or fails. A missing file is a failure. */
    method ReadFile(id: nat) returns (content: Option<Bytes>)
      modifies this`failures
      ensures content.Some? ==> id in files && content.value == files[id] && failures == old(failures)
      ensures content.None? ==> failures > old(failures)
    {
      var ok: bool := *;
      if ok && id in files {
        return Some(files[id]);
      }
      failures := failures + 1;
      return None;
    }

    /** Reads part of a file: as much of it as there is, a shorter piece after a read error, or nothing. */
    method ReadRange(id: nat, offset: nat, length: nat) returns (piece: Option<Bytes>)
      modifies this`failures
      ensures length == 0 ==> piece == Some([]) && failures == old(failures)
      ensures piece.Some? && length > 0 ==>
                && id in files && 0 < |piece.value| <= length && offset + |piece.value| <= |files[id]|
                && piece.value == files[id][offset..offset + |piece.value|]
      ensures id in files && offset + length <= |files[id]| ==>
                && (piece.None? || |piece.value| < length ==> failures > old(failures))
                && (piece.Some? && |piece.value| == length ==> failures == old(failures))
    {
      if length == 0 {
        return Some([]);
      }
      var rest := if id in files && offset < |files[id]| then |files[id]| - offset else 0;
      var available := if rest < length then rest else length;
      var ok: bool := *;
      if ok && available > 0 {
        return Some(files[id][offset..offset + available]);
      }
      failures := failures + 1;
      var n: nat :| n < length;
      if 0 < n <= available {
        return Some(files[id][offset..offset + n]);
      }
      return None;
    }

    /** Appends everything, or fails leaving any strict prefix, or fails without a change. */
    method AppendFile(id: nat, data: Bytes) returns (ok: bool)
      modifies this
      ensures ok ==> files == old(files)[id := Content(old(files), id) + data]
      ensures ok ==> instants == old(instants) + AppendStates(old(files), id, data, |data|)
      ensures ok ==> failures == old(failures)
      ensures !ok ==> failures > old(failures)
      ensures !ok ==>
                || (files == old(files) && instants == old(instants))
                || exists k :: 0 <= k < |data| && files == old(files)[id := Content(old(files), id) + data[..k]]
                               && instants == old(instants) + AppendStates(old(files), id, data, k)
    {
      ok := *;
      var created: bool := *;
      var n: nat :| n <= |data|;
      var c := Content(files, id);
      if ok {
        instants := instants + AppendStates(files, id, data, |data|);
        files := files[id := c + data];
      } else {
        if created && n < |data| {
          instants := instants + AppendStates(files, id, data, n);
          files := files[id := c + data[..n]];
        }
        failures := failures + 1;
      }
    }

    /** Replaces a file atomically, or fails without a change. */
    method WriteFile(id: nat, data: Bytes) returns (ok: bool)
      modifies this
      ensures ok ==> files == old(files)[id := data] && failures == old(failures)
      ensures !ok ==> files == old(files) && failures > old(failures)
      ensures instants == old(instants) + [files]
    {
      ok := *;
      if ok {
        files := files[id := data];
      } else {
        failures := failures + 1;
      }
      instants := instants + [files];
    }

    /** Cuts a file down to `length`; a missing or shorter file is a failure. */
    method TruncateFile(id: nat, length: nat) returns (ok: bool)
      modifies this
      ensures ok ==> id in old(files) && length <= |old(files)[id]| && files == old(files)[id := old(files)[id][..length]]
      ensures ok ==> failures == old(failures)
      ensures !ok ==> files == old(files) && failures > old(failures)
      ensures instants == old(instants) + [files]
    {
      ok := *;
      if ok && id in files && length <= |files[id]| {
        files := files[id := files[id][..length]];
      } else {
        ok := false;
        failures := failures + 1;
      }
      instants := instants + [files];
    }

    /** Removes a file; a missing file counts as removed. */
    method RemoveFile(id: nat) returns (ok: bool)
      modifies this
      ensures ok ==> files == old(files) - {id} && failures == old(failures)
      ensures !ok ==> files == old(files) && failures > old(failures)
      ensures instants == old(instants) + [files]
    {
      ok := *;
      if ok {
        files := files - {id};
      } else {
        failures := failures + 1;
      }
      instants := instants + [files];
    }
  }
}
