/** Reads and writes of any length at any position over a driver that only moves whole blocks through a
    bounded bounce buffer and may stop short. */
module BlockIo {
  import opened Arithmetic
  import opened Bytes

  const INT_MAX: nat := 0x7FFF_FFFF
  const SIZE_MODULUS: nat := 0x1_0000_0000_0000_0000

  /** `Halt` stands for a failed assertion. */
  datatype Status = Ok | Eio | Einval | Halt

  datatype SeekMode = SeekSet | SeekCur | SeekOther

  // ----- what a file of bytes would do

  /** `m` with the `n` device bytes from address `at` read into its front. */
  function Fetched(m: seq<byte>, dev: seq<byte>, at: nat, n: nat): (r: seq<byte>)
    requires n == 0 || at + n <= |dev|
    requires n <= |m|
    ensures |r| == |m|
  {
    if n == 0 then m else Fetched(m, dev, at, n - 1)[n - 1 := dev[at + n - 1]]
  }

  lemma {:induction false} FetchedAt(m: seq<byte>, dev: seq<byte>, at: nat, n: nat)
    requires n == 0 || at + n <= |dev|
    requires n <= |m|
    ensures forall i :: 0 <= i < |m| ==> Fetched(m, dev, at, n)[i] == if i < n then dev[at + i] else m[i]
  {
    if n > 0 {
      FetchedAt(m, dev, at, n - 1);
    }
  }

  /** Two adjacent reads into adjacent places are one read. */
  lemma {:induction false} FetchedMore(m: seq<byte>, dev: seq<byte>, at: nat, x: nat, y: nat)
    requires at + x + y <= |dev| && x + y <= |m|
    ensures Splice(Fetched(m, dev, at, x), x, dev[at + x..at + x + y]) == Fetched(m, dev, at, x + y)
    decreases y
  {
    if y > 0 {
      FetchedMore(m, dev, at, x, y - 1);
      assert dev[at + x..at + x + y][..y - 1] == dev[at + x..at + x + (y - 1)];
    }
  }

  /** Reading where `data` was written gives `data`. */
  lemma {:induction false} FetchedBack(m: seq<byte>, dev: seq<byte>, at: nat, data: seq<byte>)
    requires at + |data| <= |dev| && |data| <= |m|
    ensures Fetched(m, Splice(dev, at, data), at, |data|)[..|data|] == data
  {
    FetchedAt(m, Splice(dev, at, data), at, |data|);
    SpliceAt(dev, at, data);
  }

  /** Writing back the first `n` bytes of a buffer that holds the device's own bytes, with `user` laid
      over them from `skip`, writes exactly the part of `user` those bytes cover. */
  lemma {:induction false} BounceWrite(dev: seq<byte>, start: nat, skip: nat, buf: seq<byte>, request: nat, n: nat,
                                       user: seq<byte>)
    requires n <= request <= |buf| && (n > 0 ==> start + n <= |dev|)
    requires Prepared(buf, dev, start, request, skip, user)
    ensures n <= skip ==> Splice(dev, start, buf[..n]) == dev
    ensures skip < n ==> var k := if n - skip < |user| then n - skip else |user|;
      Splice(dev, start, buf[..n]) == Splice(dev, start + skip, user[..k])
  {
    SpliceAt(dev, start, buf[..n]);
    if skip < n {
      var k := if n - skip < |user| then n - skip else |user|;
      SpliceAt(dev, start + skip, user[..k]);
    }
  }

  /** The low-level driver: whole-block requests, arbitrary short transfers. One that is `full` moves all of a request
      that the device holds. */
  class Driver {
    var dev: seq<byte>
    const blockSize: nat
    const full: bool

    constructor (dev: seq<byte>, blockSize: nat, full: bool)
      ensures this.dev == dev && this.blockSize == blockSize && this.full == full
    {
      this.dev := dev;
      this.blockSize := blockSize;
      this.full := full;
    }

    /** How much of a request the device holds. */
    function Most(start: nat, request: nat): nat
      reads this
    {
      if start >= |dev| then 0 else if |dev| - start < request then |dev| - start else request
    }

    /** The request is a block multiple that fits the buffer; the driver delivers any part of it. */
    method Read(lba: nat, buf: array<byte>, request: nat) returns (n: nat)
      requires blockSize > 0 && request % blockSize == 0 && request <= buf.Length && lba <= INT_MAX
      modifies buf
      ensures n <= request && (n > 0 ==> lba * blockSize + n <= |dev|)
      ensures n > 0 ==> buf[..n] == dev[lba * blockSize..lba * blockSize + n]
      ensures full && lba * blockSize + request <= |dev| ==> n == request
    {
      var start := lba * blockSize;
      var most := Most(start, request);
      n :| 0 <= n <= most && (full ==> n == most);
      if n > 0 {
        forall i | 0 <= i < n {
          buf[i] := dev[start + i];
        }
      }
    }

    /** The driver stores any leading part of the request. */
    method Write(lba: nat, buf: array<byte>, request: nat) returns (n: nat)
      requires blockSize > 0 && request % blockSize == 0 && request <= buf.Length && lba <= INT_MAX
      modifies this`dev
      ensures n <= request && (n > 0 ==> lba * blockSize + n <= |dev|)
      ensures |dev| == old(|dev|)
      ensures dev == Splice(old(dev), lba * blockSize, buf[..n])
      ensures full && lba * blockSize + request <= |dev| ==> n == request
    {
      var start := lba * blockSize;
      var most := Most(start, request);
      n :| 0 <= n <= most && (full ==> n == most);
      dev := Splice(dev, start, buf[..n]);
    }
  }

  /** An open region of a device. */
  class Region {
    const driver: Driver
    const bounce: array<byte>
    const blockSize: nat
    var base: nat
    var size: nat
    var filePos: nat

    /** Addresses below this have block numbers that fit an int. */
    ghost function BlockLimit(): nat { (INT_MAX + 1) * blockSize }

    /** What opening the device has checked. */
    ghost predicate DeviceOk() {
      0 < blockSize < SIZE_MODULUS && blockSize == driver.blockSize && bounce.Length % blockSize == 0
    }

    /** What opening the region has checked, and that block numbers fit an int. */
    ghost predicate Valid()
      reads this, driver
    {
      && DeviceOk() && base % blockSize == 0 && size % blockSize == 0
      && base + size < BlockLimit() && base + filePos < BlockLimit() && |driver.dev| < BlockLimit()
    }

    constructor (driver: Driver, bounce: array<byte>)
      ensures this.driver == driver && this.bounce == bounce && this.blockSize == driver.blockSize
      ensures filePos == 0 && base == 0 && size == 0
    {
      this.driver, this.bounce, this.blockSize := driver, bounce, driver.blockSize;
      this.base, this.size, this.filePos := 0, 0, 0;
    }

    /** The `n` bytes from address `at` are on the device, and transfers do not stop short. */
    ghost predicate Served(at: nat, n: nat)
      reads driver
    {
      driver.full && bounce.Length > 0 && blockSize > 0 && |driver.dev| % blockSize == 0 && at + n <= |driver.dev|
    }

    method Open(offset: nat, length: nat) returns (r: Status)
      requires DeviceOk()
      modifies this`base, this`size, this`filePos
      ensures r == Ok <==> offset % blockSize == 0 && length % blockSize == 0
      ensures r == Ok ==> base == offset && size == length && filePos == 0
      ensures r == Ok && offset + length < BlockLimit() && |driver.dev| < BlockLimit() ==> Valid()
      ensures r == Ok || r == Halt
    {
      if offset % blockSize != 0 || length % blockSize != 0 {
        return Halt;
      }
      base, size, filePos := offset, length, 0;
      return Ok;
    }

    /** Offsets outside the region, before or after the move, fail an assertion. */
    method Seek(mode: SeekMode, offset: int) returns (r: Status)
      requires blockSize > 0
      modifies this`filePos
      ensures r == Ok <==> 0 <= offset < size && !mode.SeekOther? && (mode.SeekCur? ==> old(filePos) + offset < size)
      ensures r == Ok ==> filePos == (if mode.SeekSet? then offset else old(filePos) + offset) && filePos < size
      ensures r == Einval <==> 0 <= offset < size && mode.SeekOther?
      ensures r == Einval ==> filePos == old(filePos)
      ensures r != Eio
    {
      if offset < 0 || offset >= size {
        return Halt;
      }
      match mode {
        case SeekSet => filePos := offset;
        case SeekCur => filePos := filePos + offset;
        case SeekOther => return Einval;
      }
      return if filePos < size then Ok else Halt;
    }

    /** The request for one iteration: all that is left, rounded up to blocks, or a buffer full. */
    method Request(skip: nat, left: nat) returns (request: nat)
      requires Valid() && skip < blockSize
      ensures request % blockSize == 0 && request <= bounce.Length
      ensures bounce.Length > 0 && left > 0 ==> request > skip
      ensures request < skip + left ==> request == bounce.Length
      ensures request < skip + left || request == RoundUp(skip + left, blockSize)
    {
      if skip + left > bounce.Length {
        request := bounce.Length;
        if bounce.Length > 0 {
          MultipleAtLeast(bounce.Length, blockSize);
        }
      } else {
        request := RoundUp(skip + left, blockSize);
        RoundUpFacts(skip + left, blockSize, bounce.Length);
      }
    }

    /** Reads blocks from address `start` into the bounce buffer. */
    method FillBounce(lba: nat, skip: nat, left: nat, ghost start: nat) returns (got: nat)
      requires Valid() && skip < blockSize && lba <= INT_MAX && start == lba * blockSize && 0 < left
      modifies bounce
      ensures got <= bounce.Length && (got > 0 ==> start + got <= |driver.dev|)
      ensures got > 0 ==> bounce[..got] == driver.dev[start..start + got]
      ensures Served(start + skip, left) ==> got > skip
    {
      var request := Request(skip, left);
      if Served(start + skip, left) {
        RequestFits(start, lba, skip, left, request, |driver.dev|, blockSize);
      }
      got := driver.Read(lba, bounce, request);
    }

    /** One iteration of a read: `nbytes` more user bytes, none when the driver stopped in the skip. */
    method ReadChunk(buffer: array<byte>, count: nat, left: nat) returns (nbytes: nat)
      requires Valid() && buffer != bounce && count + left <= buffer.Length && 0 < left
      modifies this`filePos, buffer, bounce
      ensures Valid() && nbytes <= left && filePos == old(filePos) + nbytes
      ensures nbytes > 0 ==> base + filePos <= |driver.dev|
      ensures nbytes > 0 ==>
        buffer[..] == Splice(old(buffer[..]), count, driver.dev[base + old(filePos)..base + filePos])
      ensures nbytes == 0 ==> buffer[..] == old(buffer[..])
      ensures Served(base + old(filePos), left) ==> nbytes > 0
    {
      var skip, lba := filePos % blockSize, (filePos + base) / blockSize;
      BlockOf(filePos, base, blockSize);
      ghost var start := lba * blockSize;
      var got := FillBounce(lba, skip, left, start);
      if got <= skip {
        return 0;
      }
      nbytes := if got - skip > left then left else got - skip;
      SubSlice(driver.dev, start, got, bounce[..], skip, nbytes);
      MoveBytes(buffer, count, bounce, skip, nbytes);
      filePos := filePos + nbytes;
    }

    /** ReadChunk as a step of a read that began with the buffer `was`, `count` bytes ago. */
    method ReadStep(buffer: array<byte>, count: nat, left: nat, ghost was: seq<byte>) returns (nbytes: nat)
      requires Valid() && buffer != bounce && count + left <= buffer.Length == |was| && 0 < left
      requires count <= filePos && (count > 0 ==> base + filePos <= |driver.dev|)
      requires buffer[..] == Fetched(was, driver.dev, base + filePos - count, count)
      modifies this`filePos, buffer, bounce
      ensures Valid() && nbytes <= left && filePos == old(filePos) + nbytes
      ensures count + nbytes > 0 ==> base + filePos <= |driver.dev|
      ensures buffer[..] == Fetched(was, driver.dev, base + filePos - (count + nbytes), count + nbytes)
      ensures Served(base + old(filePos), left) ==> nbytes > 0
    {
      ghost var at := base + filePos - count;
      nbytes := ReadChunk(buffer, count, left);
      if nbytes > 0 {
        FetchedMore(was, driver.dev, at, count, nbytes);
      }
    }

    /** Reads `length` bytes from the current position. On success the buffer holds exactly the device's
        bytes; on an I/O error it holds those of them by which the position advanced. */
    method BlockRead(buffer: array<byte>, length: nat) returns (r: Status, lengthRead: nat)
      requires Valid() && buffer != bounce && length <= buffer.Length
      modifies this`filePos, buffer, bounce
      ensures Valid()
      ensures r == Halt <==> !(0 < length <= size)
      ensures r == Ok || r == Eio || r == Halt
      ensures r == Ok ==> lengthRead == length && filePos == old(filePos) + length
      ensures r == Eio ==> old(filePos) <= filePos < old(filePos) + length
      ensures r == Halt ==> filePos == old(filePos)
      ensures filePos > old(filePos) ==> base + filePos <= |driver.dev|
      ensures buffer[..] == Fetched(old(buffer[..]), driver.dev, base + old(filePos), filePos - old(filePos))
      ensures Served(base + old(filePos), length) ==> r != Eio
    {
      lengthRead := 0;
      if length > size || length == 0 {
        return Halt, 0;
      }
      ghost var was, at := buffer[..], base + filePos;
      var count: nat, left: nat := 0, length;
      while left > 0
        invariant Valid() && count + left == length && filePos == old(filePos) + count
        invariant count > 0 ==> base + filePos <= |driver.dev|
        invariant buffer[..] == Fetched(was, driver.dev, at, count)
      {
        var nbytes := ReadStep(buffer, count, left, was);
        if nbytes == 0 {
          return Eio, 0;
        }
        count, left := count + nbytes, left - nbytes;
      }
      return Ok, count;
    }

    // ----- writing

    /** Fills the bounce buffer for one write: the device's own bytes where some must be preserved, with
        the user's bytes over them. `ok` is false when the preserving read stopped in the skip. */
    method Prepare(buffer: array<byte>, count: nat, left: nat, skip: nat, lba: nat)
      returns (ok: bool, request: nat, nbytes: nat)
      requires Valid() && buffer != bounce && count + left <= buffer.Length && 0 < left
      requires skip < blockSize && lba <= INT_MAX
      modifies bounce
      ensures request % blockSize == 0 && request <= bounce.Length
      ensures ok ==> skip <= request && nbytes == (if request - skip > left then left else request - skip)
      ensures ok ==> Prepared(bounce[..], driver.dev, lba * blockSize, request, skip, buffer[count..count + nbytes])
      ensures Served(lba * blockSize + skip, left) ==> ok && skip < request && lba * blockSize + request <= |driver.dev|
    {
      ghost var start := lba * blockSize;
      request := Request(skip, left);
      if Served(start + skip, left) {
        RequestFits(start, lba, skip, left, request, |driver.dev|, blockSize);
      }
      nbytes := if request >= skip then request - skip else SIZE_MODULUS + request - skip;
      var padding := if nbytes > left then nbytes - left else 0;
      nbytes := nbytes - padding;
      if skip > 0 || padding > 0 {
        ok, request := Preserve(lba, request, skip, start);
        if !ok {
          return false, request, 0;
        }
        nbytes := if request - skip > left then left else request - skip;
      }
      Overlay(buffer, count, nbytes, skip, request, start);
      ok := true;
    }

    /** Copies user bytes over the device's own bytes from address `start`, or over a whole request of them. */
    method Overlay(buffer: array<byte>, count: nat, nbytes: nat, skip: nat, request: nat, ghost start: nat)
      requires buffer != bounce && count + nbytes <= buffer.Length && skip + nbytes <= request <= bounce.Length
      requires (skip == 0 && nbytes == request)
        || (start + request <= |driver.dev| && bounce[0..request] == driver.dev[start..start + request])
      modifies bounce
      ensures Prepared(bounce[..], driver.dev, start, request, skip, buffer[count..count + nbytes])
    {
      LayOver(bounce[..], driver.dev, start, request, skip, buffer[count..count + nbytes]);
      MoveBytes(bounce, skip, buffer, count, nbytes);
    }

    /** Reads the device's own bytes into the bounce buffer, whole blocks of them. */
    method Preserve(lba: nat, planned: nat, skip: nat, ghost start: nat) returns (ok: bool, request: nat)
      requires 0 < blockSize == driver.blockSize && lba <= INT_MAX
      requires planned % blockSize == 0 && planned <= bounce.Length
      requires start == lba * blockSize
      modifies bounce
      ensures request % blockSize == 0 && request <= planned
      ensures ok ==> skip < request && start + request <= |driver.dev|
      ensures ok ==> bounce[0..request] == driver.dev[start..start + request]
      ensures driver.full && start + planned <= |driver.dev| ==> request == planned && (ok <==> skip < planned)
    {
      var got := driver.Read(lba, bounce, planned);
      request := RoundDown(got, blockSize);
      RoundDownFacts(got, blockSize);
      RoundDownMultiple(planned, blockSize);
      ok := request > skip;
      if ok {
        SubSlice(driver.dev, start, got, bounce[..], 0, request);
      }
    }

    /** One iteration of a write: `nbytes` more user bytes stored, none on an error. */
    method WriteChunk(buffer: array<byte>, count: nat, left: nat) returns (nbytes: nat)
      requires Valid() && buffer != bounce && count + left <= buffer.Length && 0 < left
      modifies this`filePos, driver`dev, bounce
      ensures Valid() && nbytes <= left && filePos == old(filePos) + nbytes && |driver.dev| == old(|driver.dev|)
      ensures nbytes > 0 ==> base + filePos <= |driver.dev|
      ensures driver.dev == Splice(old(driver.dev), base + old(filePos), buffer[count..count + nbytes])
      ensures old(Served(base + filePos, left)) ==> nbytes > 0
    {
      var skip, lba := filePos % blockSize, (filePos + base) / blockSize;
      BlockOf(filePos, base, blockSize);
      var ok, request, planned := Prepare(buffer, count, left, skip, lba);
      if !ok {
        return 0;
      }
      nbytes := Store(buffer, count, left, skip, lba, request, planned);
      filePos := filePos + nbytes;
    }

    /** Writes the prepared buffer and counts the user bytes that were stored. */
    method Store(buffer: array<byte>, count: nat, left: nat, skip: nat, lba: nat, request: nat, planned: nat)
      returns (nbytes: nat)
      requires 0 < blockSize == driver.blockSize && lba <= INT_MAX
      requires request % blockSize == 0 && request <= bounce.Length
      requires buffer != bounce && count + left <= buffer.Length && skip <= request
      requires planned == (if request - skip > left then left else request - skip)
      requires Prepared(bounce[..], driver.dev, lba * blockSize, request, skip, buffer[count..count + planned])
      modifies driver`dev
      ensures nbytes <= left && |driver.dev| == old(|driver.dev|)
      ensures nbytes > 0 ==> lba * blockSize + skip + nbytes <= |driver.dev|
      ensures driver.dev == Splice(old(driver.dev), lba * blockSize + skip, buffer[count..count + nbytes])
      ensures driver.full && skip < request && lba * blockSize + request <= |driver.dev| && left > 0 ==> nbytes > 0
    {
      ghost var before, user, held, start := driver.dev, buffer[count..count + planned], bounce[..], lba * blockSize;
      var n := driver.Write(lba, bounce, request);
      assert bounce[..n] == held[..n];
      BounceWrite(before, start, skip, held, request, n, user);
      if n <= skip {
        return 0;
      }
      nbytes := if n - skip > left then left else n - skip;
      assert user[..nbytes] == buffer[count..count + nbytes];
    }

    /** WriteChunk as a step of a write at address `at` that began with the device `was`, `count` bytes ago. */
    method WriteStep(buffer: array<byte>, count: nat, left: nat, ghost was: seq<byte>, ghost at: nat)
      returns (nbytes: nat)
      requires Valid() && buffer != bounce && count + left <= buffer.Length && 0 < left
      requires |driver.dev| == |was| && at + count == base + filePos && (count > 0 ==> at + count <= |was|)
      requires driver.dev == Splice(was, at, buffer[..count])
      modifies this`filePos, driver`dev, bounce
      ensures Valid() && nbytes <= left && filePos == old(filePos) + nbytes && |driver.dev| == |was|
      ensures count + nbytes > 0 ==> at + count + nbytes <= |was|
      ensures driver.dev == Splice(was, at, buffer[..count + nbytes])
      ensures old(Served(base + filePos, left)) ==> nbytes > 0
    {
      ghost var data := buffer[..];
      nbytes := WriteChunk(buffer, count, left);
      assert buffer[..] == data && data[..count] + data[count..count + nbytes] == data[..count + nbytes];
      SpliceAdjacent(was, at, data[..count], data[count..count + nbytes]);
    }

    /** The write loop with the check before it. */
    method WriteAll(buffer: array<byte>, length: nat) returns (r: Status, lengthWritten: nat)
      requires Valid() && buffer != bounce && length <= buffer.Length
      modifies this`filePos, driver`dev, bounce
      ensures Valid() && |driver.dev| == old(|driver.dev|)
      ensures r == Halt <==> !(0 < length <= size)
      ensures r == Ok || r == Eio || r == Halt
      ensures r == Ok ==> lengthWritten == length && filePos == old(filePos) + length
      ensures r == Eio ==> old(filePos) <= filePos < old(filePos) + length
      ensures r == Halt ==> filePos == old(filePos)
      ensures filePos > old(filePos) ==> base + filePos <= |driver.dev|
      ensures driver.dev == Splice(old(driver.dev), base + old(filePos), buffer[..filePos - old(filePos)])
      ensures old(Served(base + filePos, length)) ==> r != Eio
    {
      lengthWritten := 0;
      if length > size || length == 0 {
        return Halt, 0;
      }
      ghost var was, at := driver.dev, base + filePos;
      var count: nat, left: nat := 0, length;
      while left > 0
        invariant Valid() && count + left == length && filePos == old(filePos) + count
        invariant |driver.dev| == |was| && (count > 0 ==> base + filePos <= |driver.dev|)
        invariant driver.dev == Splice(was, at, buffer[..count])
      {
        var nbytes := WriteStep(buffer, count, left, was, at);
        if nbytes == 0 {
          return Eio, 0;
        }
        count, left := count + nbytes, left - nbytes;
      }
      return Ok, count;
    }

    /** Stores `length` bytes at the current position. On success the device is the old device with exactly
        those bytes overwritten; on an I/O error exactly the bytes by which the position advanced are. Where transfers
        are full and the device holds the bytes there is no error. The length check leaves out the position: the
        region's bound is kept if position and length together fit, and otherwise success overwrites what follows it. */
    method BlockWrite(buffer: array<byte>, length: nat) returns (r: Status, lengthWritten: nat)
      requires Valid() && buffer != bounce && length <= buffer.Length
      modifies this`filePos, driver`dev, bounce
      ensures Valid() && |driver.dev| == old(|driver.dev|)
      ensures r == Halt <==> !(0 < length <= size)
      ensures r == Ok || r == Eio || r == Halt
      ensures r == Ok ==> lengthWritten == length && filePos == old(filePos) + length
      ensures r == Eio ==> old(filePos) <= filePos < old(filePos) + length
      ensures r == Halt ==> filePos == old(filePos)
      ensures filePos > old(filePos) ==> base + filePos <= |driver.dev|
      ensures driver.dev == Splice(old(driver.dev), base + old(filePos), buffer[..filePos - old(filePos)])
      ensures old(Served(base + filePos, length)) ==> r != Eio
      ensures old(filePos) + length <= size ==> OutsideKept(old(driver.dev), driver.dev, base, size)
      ensures r == Ok && old(filePos) <= size < old(filePos) + length ==>
        driver.dev[base + size..base + filePos] == buffer[size - old(filePos)..length]
    {
      ghost var was, pos := driver.dev, filePos;
      r, lengthWritten := WriteAll(buffer, length);
      InOrOut(was, base, size, pos, buffer[..], filePos - pos, length);
    }

    /** A write, a seek back and a read of the same length: if both transfers succeed, the bytes come back; and where
        transfers are full and the device holds the bytes, both do. */
    method WriteThenRead(data: array<byte>, out: array<byte>, length: nat) returns (w: Status, r: Status)
      requires Valid() && data != bounce && out != bounce && data != out
      requires length <= data.Length && length <= out.Length && filePos < size
      modifies this`filePos, driver`dev, bounce, out
      ensures w == Ok && r == Ok ==> out[..length] == data[..length]
      ensures 0 < length <= size && old(Served(base + filePos, length)) ==> w == Ok && r == Ok
    {
      var pos := filePos;
      var n, m;
      w, n := BlockWrite(data, length);
      ghost var stored := data[..length];
      r := Seek(SeekSet, pos);
      if w != Ok || r != Ok {
        return;
      }
      ghost var was := out[..];
      r, m := BlockRead(out, length);
      if r == Ok {
        FetchedBack(was, old(driver.dev), base + pos, stored);
        assert out[..length] == out[..][..length];
      }
    }
  }

  /** The first `request` bytes of `buf` are the device's own from `start`, as far as it reaches, with
      `user` over them from `skip`. */
  ghost predicate Prepared(buf: seq<byte>, dev: seq<byte>, start: nat, request: nat, skip: nat, user: seq<byte>)
    requires request <= |buf|
  {
    forall i :: 0 <= i < request && start + i < |dev| ==>
      buf[i] == if skip <= i < skip + |user| then user[i - skip] else dev[start + i]
  }

  lemma {:induction false} LayOver(buf: seq<byte>, dev: seq<byte>, start: nat, request: nat, skip: nat, user: seq<byte>)
    requires request <= |buf| && skip + |user| <= request
    requires (skip == 0 && |user| == request)
      || (start + request <= |dev| && buf[0..request] == dev[start..start + request])
    ensures Prepared(Splice(buf, skip, user), dev, start, request, skip, user)
  {
    SpliceAt(buf, skip, user);
    if !(skip == 0 && |user| == request) {
      forall i | 0 <= i < request
        ensures buf[i] == dev[start + i]
      {
        assert buf[0..request][i] == dev[start..start + request][i];
      }
    }
  }

  /** memcpy between two arrays. */
  method MoveBytes(dst: array<byte>, at: nat, src: array<byte>, from: nat, n: nat)
    requires dst != src && at + n <= dst.Length && from + n <= src.Length
    modifies dst
    ensures dst[..] == Splice(old(dst[..]), at, src[from..from + n])
  {
    ghost var piece, want := src[from..from + n], Splice(dst[..], at, src[from..from + n]);
    SpliceAt(dst[..], at, piece);
    forall i | 0 <= i < n {
      dst[at + i] := src[from + i];
    }
    forall i | 0 <= i < dst.Length
      ensures dst[i] == want[i]
    {
      if at <= i < at + n {
        assert piece[i - at] == src[from + (i - at)];
      }
    }
    assert dst[..] == want && src[from..from + n] == piece;
  }

  /** Bytes `skip..skip+n` of a buffer whose first `got` bytes are those of the device at `start`. */
  lemma {:induction false} SubSlice(dev: seq<byte>, start: nat, got: nat, buf: seq<byte>, skip: nat, n: nat)
    requires start + got <= |dev| && got <= |buf| && skip + n <= got
    requires buf[..got] == dev[start..start + got]
    ensures buf[skip..skip + n] == dev[start + skip..start + skip + n]
  {
    var part, whole := buf[skip..skip + n], dev[start + skip..start + skip + n];
    forall i | 0 <= i < n
      ensures part[i] == whole[i]
    {
      assert buf[..got][skip + i] == dev[start..start + got][skip + i];
    }
  }

  // ----- block arithmetic

  function RoundUp(x: nat, b: nat): nat
    requires b > 0
  {
    (x + b - 1) / b * b
  }

  function RoundDown(x: nat, b: nat): nat
    requires b > 0
  {
    x / b * b
  }

  lemma {:induction false} RoundDownFacts(x: nat, b: nat)
    requires b > 0
    ensures RoundDown(x, b) % b == 0 && 0 <= RoundDown(x, b) <= x
  {
    DivUnique(x / b * b, x / b, 0, b);
  }

  /** Rounding down a multiple changes nothing. */
  lemma {:induction false} RoundDownMultiple(x: nat, b: nat)
    requires b > 0 && x % b == 0
    ensures RoundDown(x, b) == x
  {
  }

  /** A request for bytes on a device of whole blocks does not reach past the device. */
  lemma {:induction false} RequestFits(start: nat, lba: nat, skip: nat, left: nat, request: nat, end: nat, b: nat)
    requires b > 0 && start == lba * b && end % b == 0 && start + skip + left <= end
    requires request < skip + left || request == RoundUp(skip + left, b)
    ensures start + request <= end
  {
    var room := end - start;
    DivUnique(room, end / b - lba, 0, b);
    RoundUpFacts(skip + left, b, room);
  }

  lemma {:induction false} BlockOf(pos: nat, base: nat, b: nat)
    requires b > 0 && base % b == 0 && base + pos < (INT_MAX + 1) * b
    ensures (pos + base) / b * b + pos % b == pos + base
    ensures 0 <= (pos + base) / b <= INT_MAX
  {
    var q := (pos + base) / b;
    ModOfSum(pos, base, b);
    assert q * b <= pos + base < (INT_MAX + 1) * b;
    if q > INT_MAX {
      MulMono(INT_MAX + 1, q, b);
    }
  }

  lemma {:induction false} ModOfSum(x: nat, y: nat, b: nat)
    requires b > 0 && y % b == 0
    ensures (x + y) % b == x % b
  {
    var k, q := y / b, x / b;
    assert x + y == (q + k) * b + x % b;
    DivUnique(x + y, q + k, x % b, b);
  }

  lemma {:induction false} MultipleAtLeast(x: nat, b: nat)
    requires b > 0 && x % b == 0 && x > 0
    ensures x >= b
  {
  }

  lemma {:induction false} RoundUpFacts(x: nat, b: nat, limit: nat)
    requires b > 0 && x <= limit && limit % b == 0
    ensures RoundUp(x, b) % b == 0 && x <= RoundUp(x, b) <= limit
  {
    var q := (x + b - 1) / b;
    DivUnique(q * b, q, 0, b);
    var m := limit / b;
    assert q * b < (m + 1) * b;
    if q > m {
      MulMono(m + 1, q, b);
    } else {
      MulMono(q, m, b);
    }
  }

  // ----- the region bound

  /** The length check of a write leaves out the position, so a write can reach past the region. It stays
      inside for all data exactly when position and length together do. */
  lemma {:induction false} StaysInRegionIff(dev: seq<byte>, base: nat, size: nat, pos: nat, length: nat)
    requires 0 < length <= size && base + pos + length <= |dev|
    ensures pos + length <= size <==> forall data: seq<byte> :: |data| == length ==>
      OutsideKept(dev, Splice(dev, base + pos, data), base, size)
  {
    if pos + length <= size {
      forall data: seq<byte> | |data| == length
        ensures OutsideKept(dev, Splice(dev, base + pos, data), base, size)
      {
        SpliceAt(dev, base + pos, data);
      }
    } else {
      var data := Leaves(dev, base, size, pos, length);
      assert !OutsideKept(dev, Splice(dev, base + pos, data), base, size);
    }
  }

  /** Data that differs everywhere from what it overwrites. */
  lemma {:induction false} Leaves(dev: seq<byte>, base: nat, size: nat, pos: nat, length: nat) returns (data: seq<byte>)
    requires 0 < length <= size < pos + length && base + pos + length <= |dev|
    ensures |data| == length && !OutsideKept(dev, Splice(dev, base + pos, data), base, size)
  {
    data := seq(length, i requires 0 <= i < length => if dev[base + pos + i] == 0 then 1 else 0);
    SpliceAt(dev, base + pos, data);
    var k := if pos > size then 0 else size - pos;
    var at := base + pos + k;
    assert data[k] != dev[at];
    assert Splice(dev, base + pos, data)[at] == data[at - (base + pos)];
  }

  /** `n` bytes of `data` written at `pos` stay in the region if `length` bytes fit there; all of them, if they do not,
      overwrite what follows the region. */
  lemma {:induction false} InOrOut(dev: seq<byte>, base: nat, size: nat, pos: nat, data: seq<byte>, n: nat, length: nat)
    requires n <= length <= |data| && (n > 0 ==> base + pos + n <= |dev|)
    ensures pos + length <= size ==> OutsideKept(dev, Splice(dev, base + pos, data[..n]), base, size)
    ensures pos <= size < pos + n ==>
      Splice(dev, base + pos, data[..n])[base + size..base + pos + n] == data[size - pos..n]
  {
    SpliceAt(dev, base + pos, data[..n]);
  }

  /** Sixteen-byte blocks, full transfers, a region of two blocks, a seek to the second and a write of two: every check
      passes, the write succeeds, and the sixteen bytes after the region have changed. */
  method SpillExample() returns (r: Status, dev: seq<byte>)
    ensures r == Ok && |dev| == 64 && dev[32..48] == Ones(16) && !OutsideKept(Zeros(64), dev, 0, 32)
  {
    var driver := new Driver(Zeros(64), 16, true);
    var bounce := new byte[16];
    var region := new Region(driver, bounce);
    var _ := region.Open(0, 32);
    var _ := region.Seek(SeekSet, 16);
    var data := new byte[32](_ => 1);
    ghost var ones := data[..];
    var n;
    assert region.Served(16, 32);
    r, n := region.BlockWrite(data, 32);
    dev := driver.dev;
    assert data[16..32] == ones[16..32];
    Spilled(dev, ones);
  }

  lemma {:induction false} Spilled(dev: seq<byte>, data: seq<byte>)
    requires |dev| == 64 && |data| == 32 && dev[32..48] == data[16..32]
    requires forall i :: 0 <= i < |data| ==> data[i] == 1
    ensures dev[32..48] == Ones(16) && !OutsideKept(Zeros(64), dev, 0, 32)
  {
    assert dev[32] == dev[32..48][0] == data[16..32][0] == data[16];
  }

  function Ones(n: nat): (r: seq<byte>)
    ensures |r| == n && forall i :: 0 <= i < n ==> r[i] == 1
  {
    seq(n, _ => 1)
  }

  /** Every byte outside the region is as it was. */
  ghost predicate OutsideKept(dev: seq<byte>, out: seq<byte>, base: nat, size: nat)
    requires |dev| == |out|
  {
    forall i :: 0 <= i < |dev| && !(base <= i < base + size) ==> out[i] == dev[i]
  }
}
