/** The block device under the filesystem: a sector store whose transfers may fail. */
module Devices {
  import opened Bytes

  class Device {
    var sectors: seq<Sector>
    /** A reliable device never reports a fault for sectors that exist. */
    const reliable: bool

    constructor (sectors: seq<Sector>, reliable: bool)
      ensures this.sectors == sectors && this.reliable == reliable
    {
      this.sectors, this.reliable := sectors, reliable;
    }

    /** disk_read: `count` sectors from `sect` into `buf` at `off`.  A fault may leave part of the range filled. */
    method Read(buf: array<byte>, off: nat, sect: dword, count: nat) returns (ok: bool)
      requires off + SS * count <= buf.Length
      modifies buf
      ensures reliable && sect + count <= |sectors| ==> ok
      ensures ok ==> sect + count <= |sectors| || count == 0
      ensures ok && count > 0 ==> buf[..] == Splice(old(buf[..]), off, RunData(sectors, sect, count))
      ensures forall k :: 0 <= k < buf.Length && !(off <= k < off + SS * count) ==> buf[k] == old(buf[k])
    {
      for n := 0 to count
        invariant n > 0 ==> sect + n <= |sectors|
        invariant forall k :: off <= k < off + SS * n ==> buf[k] == sectors[sect + (k - off) / SS][(k - off) % SS]
        invariant forall k :: 0 <= k < buf.Length && !(off <= k < off + SS * count) ==> buf[k] == old(buf[k])
      {
        if sect + n >= |sectors| {
          return false;
        }
        var fault: bool := *;
        if !reliable && fault {
          return false;
        }
        forall j | 0 <= j < SS {
          buf[off + SS * n + j] := sectors[sect + n][j];
        }
      }
      ok := true;
    }

    /** disk_write: `count` sectors from `buf` at `off`.  A fault may leave a prefix written. */
    method Write(buf: array<byte>, off: nat, sect: dword, count: nat) returns (ok: bool)
      requires off + SS * count <= buf.Length
      modifies this
      ensures |sectors| == |old(sectors)|
      ensures reliable && sect + count <= |sectors| ==> ok
      ensures ok ==> sect + count <= |sectors| || count == 0
      ensures ok ==> forall s :: sect <= s < sect + count ==> sectors[s] == Chunk(buf[off..off + SS * count], s - sect)
      ensures forall s :: 0 <= s < |sectors| && !(sect <= s < sect + count) ==> sectors[s] == old(sectors)[s]
      ensures ok && count == 1 ==> sectors == old(sectors)[sect := buf[off..off + SS]]
      ensures !ok && count == 1 ==> sectors == old(sectors)
    {
      for n := 0 to count
        invariant |sectors| == |old(sectors)| && (n == 0 ==> sectors == old(sectors))
        invariant n > 0 ==> sect + n <= |sectors|
        invariant forall s :: sect <= s < sect + n ==> sectors[s] == buf[off + SS * (s - sect)..off + SS * (s - sect) + SS]
        invariant forall s :: 0 <= s < |sectors| && !(sect <= s < sect + count) ==> sectors[s] == old(sectors)[s]
      {
        if sect + n >= |sectors| {
          return false;
        }
        var fault: bool := *;
        if !reliable && fault {
          return false;
        }
        sectors := sectors[sect + n := buf[off + SS * n..off + SS * n + SS]];
      }
      forall s | sect <= s < sect + count ensures sectors[s] == Chunk(buf[off..off + SS * count], s - sect) {
        ChunkOfSlice(buf[..], off, count, s - sect);
      }
      ok := true;
    }
  }
}
