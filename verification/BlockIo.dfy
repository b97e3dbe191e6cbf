/** The UEFI services below the flasher: EFI_BLOCK_IO_PROTOCOL.WriteBlocks (section 13.9 of the
    UEFI Specification 2.10) and EFI_FILE_PROTOCOL reads (section 13.5 of the same document).
    A device carries a script of outcomes: what its next accepted writes will return and, where
    one fails, which bytes it leaves inside its own target range. An exhausted script means the
    writes succeed, so quantifying over scripts quantifies over all fault behaviours. */
module BlockIo {
  import opened Bytes

  datatype Media = Media(present: bool, readOnly: bool, blockSize: u32, lastBlock: u64)

  datatype Outcome = Outcome(status: u64, scribble: seq<byte>)

  /** Byte address of a media block. */
  function ByteOffset(lba: nat, blockSize: nat): nat {
    lba * blockSize
  }

  datatype Disk = Disk(media: Media, image: seq<byte>, outcomes: seq<Outcome>) {
    /** The image holds exactly the addressable blocks, and byte offsets fit in 64 bits. */
    predicate Valid() {
      |image| == ByteOffset(media.lastBlock + 1, media.blockSize) && |image| < TWO_64 && media.lastBlock + 1 < TWO_64
    }

    /** Accepts writes, and no scripted outcome is an error. */
    predicate Quiet() {
      forall i :: 0 <= i < |outcomes| ==> !IsError(outcomes[i].status)
    }

    predicate Writable() {
      media.present && !media.readOnly && media.blockSize > 0
    }
  }

  /** Bytes of img with data laid over them at off; a range that does not fit changes nothing. */
  function Splice(img: seq<byte>, off: nat, data: seq<byte>): (r: seq<byte>)
    ensures |r| == |img|
  {
    if off + |data| <= |img| then img[..off] + data + img[off + |data|..] else img
  }

  lemma SpliceAt(img: seq<byte>, off: nat, data: seq<byte>, p: nat)
    requires off + |data| <= |img| && p < |img|
    ensures Splice(img, off, data)[p] == if off <= p < off + |data| then data[p - off] else img[p]
  {
  }

  /** Two writes side by side are one write. */
  lemma SpliceJoin(img: seq<byte>, off: nat, a: seq<byte>, b: seq<byte>)
    requires off + |a| + |b| <= |img|
    ensures Splice(Splice(img, off, a), off + |a|, b) == Splice(img, off, a + b)
  {
  }

  datatype Written = Written(status: u64, disk: Disk)

  /** Why a request is refused before it reaches the medium, or SUCCESS if it is accepted. */
  function Refusal(media: Media, lba: nat, len: nat): u64 {
    if !media.present then NO_MEDIA
    else if media.readOnly then WRITE_PROTECTED
    else if media.blockSize == 0 || len % media.blockSize != 0 then BAD_BUFFER_SIZE
    else if ByteOffset(lba, media.blockSize) + len > ByteOffset(media.lastBlock + 1, media.blockSize) then
      INVALID_PARAMETER
    else SUCCESS
  }

  function WriteBlocks(d: Disk, lba: nat, buf: seq<byte>): (w: Written)
    requires d.Valid()
    ensures w.disk.Valid() && w.disk.media == d.media
    ensures d.Quiet() ==> w.disk.Quiet()
    ensures d.outcomes == [] ==> w.disk.outcomes == []
  {
    var refusal := Refusal(d.media, lba, |buf|);
    if refusal != SUCCESS then Written(refusal, d)
    else if d.outcomes == [] then
      Written(SUCCESS, d.(image := Splice(d.image, ByteOffset(lba, d.media.blockSize), buf)))
    else
      var o := d.outcomes[0];
      var left := if IsError(o.status) then o.scribble[..Min(|o.scribble|, |buf|)] else buf;
      Written(o.status, d.(
        image := Splice(d.image, ByteOffset(lba, d.media.blockSize), left), outcomes := d.outcomes[1..]))
  }

  /** The device behind EFI_BLOCK_IO_PROTOCOL. */
  class BlockDevice {
    const media: Media
    var image: seq<byte>
    var outcomes: seq<Outcome>

    function State(): Disk
      reads this
    {
      Disk(media, image, outcomes)
    }

    constructor (disk: Disk)
      ensures State() == disk
    {
      media, image, outcomes := disk.media, disk.image, disk.outcomes;
    }

    method Write(lba: u64, buf: seq<byte>) returns (st: u64)
      requires State().Valid()
      modifies this
      ensures State().Valid()
      ensures Written(st, State()) == WriteBlocks(old(State()), lba, buf)
    {
      var w := WriteBlocks(State(), lba, buf);
      st, image, outcomes := w.status, w.disk.image, w.disk.outcomes;
    }
  }

  /** Which of the two readers of the image format is at work: ffu_parse on an open file, or
      ffu_parse_header_bytes on a buffer. */
  datatype Source = FileView | HeaderBytes

  /** file_read_exact and mem_read_exact. A file position past the end is a device error, except
      that seeking to the largest 64-bit offset means seeking to the end of the file. */
  function ReadExact(src: Source, d: seq<byte>, off: nat, len: nat): (r: Result<seq<byte>>)
    ensures r.Ok? <==> off + len <= |d|
    ensures r.Ok? ==> r.value == d[off..off + len]
    ensures r.Err? ==> IsError(r.status)
  {
    if off + len <= |d| then Ok(d[off..off + len])
    else Err(if src.FileView? && off > |d| && off != TWO_64 - 1 then DEVICE_ERROR else END_OF_FILE)
  }

  /** An open file (UEFI_FILE_VIEW over EFI_FILE_PROTOCOL): reads move the position. */
  class FileHandle {
    const contents: Contents
    var position: u64

    constructor (contents: Contents)
      ensures this.contents == contents && position == 0
    {
      this.contents, position := contents, 0;
    }

    method SetPosition(off: u64)
      modifies this
      ensures position == if off == TWO_64 - 1 then |contents| else off
    {
      position := if off == TWO_64 - 1 then |contents| else off;
    }

    method Read(size: u64) returns (st: u64, got: seq<byte>)
      modifies this
      ensures old(position) > |contents| ==> st == DEVICE_ERROR
      ensures old(position) <= |contents| ==>
                st == SUCCESS && got == contents[old(position)..Min(|contents|, old(position) + size)]
      ensures position == old(position) + |got|
    {
      if position > |contents| {
        return DEVICE_ERROR, [];
      }
      got := contents[position..Min(|contents|, position + size)];
      position := position + |got|;
      st := SUCCESS;
    }

    /** file_read_exact: seek, read, and treat a short read as end of file. */
    method ReadAt(off: u64, size: u64) returns (r: Result<seq<byte>>)
      requires size > 0
      modifies this
      ensures r == ReadExact(FileView, contents, off, size)
    {
      SetPosition(off);
      var st, got := Read(size);
      if IsError(st) {
        return Err(st);
      }
      if |got| == size {
        return Ok(got);
      }
      return Err(END_OF_FILE);
    }
  }
}
