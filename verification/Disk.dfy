/** The virtual disk: a file of fixed-size blocks that can be opened by one user. */
module Disks {
  import opened Bytes
  import opened Volumes

  class Disk {
    var active: bool
    const image: array<Block>

    constructor ()
      ensures !active && image.Length == DISK_BLOCKS && fresh(image)
    {
      active := false;
      image := new Block[DISK_BLOCKS](_ => ZeroBlock);
    }

    /** Recreates the disk file, full of zeros, whether or not it is open. */
    method MakeDisk()
      modifies image
      ensures forall b :: 0 <= b < image.Length ==> image[b] == ZeroBlock
    {
      for cnt := 0 to image.Length
        invariant forall b :: 0 <= b < cnt ==> image[b] == ZeroBlock
      {
        image[cnt] := ZeroBlock;
      }
    }

    method OpenDisk() returns (r: int)
      modifies this`active
      ensures r == if old(active) then -1 else 0
      ensures active
    {
      if active {
        return -1;
      }
      active := true;
      r := 0;
    }

    method CloseDisk() returns (r: int)
      modifies this`active
      ensures r == if old(active) then 0 else -1
      ensures !active
    {
      if !active {
        return -1;
      }
      active := false;
      r := 0;
    }

    method BlockWrite(block: int, buf: Block) returns (r: int)
      modifies image
      ensures r == if active && 0 <= block < image.Length then 0 else -1
      ensures image[..] == if r == 0 then old(image[..])[block := buf] else old(image[..])
    {
      if !active || block < 0 || block >= image.Length {
        return -1;
      }
      image[block] := buf;
      r := 0;
    }

    method BlockRead(block: int) returns (r: int, buf: Block)
      ensures r == if active && 0 <= block < image.Length then 0 else -1
      ensures r == 0 ==> buf == image[block]
    {
      if !active || block < 0 || block >= image.Length {
        return -1, ZeroBlock;
      }
      buf := image[block];
      r := 0;
    }
  }
}
