/** The firmware update of MyOTAFirmwareUpdate.cpp: blocks are fetched from the last to the first into erased flash. */
module OtaImage {
  import opened FlashMemory

  const FIRMWARE_BLOCK_SIZE := 16
  const FIRMWARE_START_OFFSET := 10

  /** The replies so far, each in front of those before it: the last block of the image comes first. */
  function Joined<T>(replies: seq<seq<T>>): (image: seq<T>)
    requires AreBlocks(replies)
    ensures |image| == FIRMWARE_BLOCK_SIZE * |replies|
  {
    if replies == [] then [] else replies[|replies| - 1] + Joined(replies[..|replies| - 1])
  }

  predicate AreBlocks<T>(replies: seq<seq<T>>) {
    forall i :: 0 <= i < |replies| ==> |replies[i]| == FIRMWARE_BLOCK_SIZE
  }

  /** The flash has room for the image behind the signature. */
  predicate Fits(blocks: nat) {
    FIRMWARE_START_OFFSET + FIRMWARE_BLOCK_SIZE * blocks <= BLOCK_32K
  }

  /** The replies lie at the end of the image, and everything before them is still erased. */
  ghost predicate Holds<T>(mem: seq<T>, erased: T, blocks: nat, block: nat, replies: seq<seq<T>>) {
    && Fits(blocks) && BLOCK_32K <= |mem| && block <= blocks && AreBlocks(replies) && |replies| == blocks - block
    && (forall k :: 0 <= k < FIRMWARE_START_OFFSET + FIRMWARE_BLOCK_SIZE * block ==> mem[k] == erased)
    && mem[FIRMWARE_START_OFFSET + FIRMWARE_BLOCK_SIZE * block..FIRMWARE_START_OFFSET + FIRMWARE_BLOCK_SIZE * blocks]
       == Joined(replies)
  }

  lemma BlockWritten<T>(both: (T, T) -> T, erased: T, mem: seq<T>, blocks: nat, block: nat, replies: seq<seq<T>>,
                        data: seq<T>)
    requires Holds(mem, erased, blocks, block, replies) && 1 <= block && |data| == FIRMWARE_BLOCK_SIZE
    requires forall x :: x in data ==> both(erased, x) == x
    ensures Holds(Programmed(both, mem, FIRMWARE_BLOCK_SIZE * (block - 1) + FIRMWARE_START_OFFSET, data), erased,
                  blocks, block - 1, replies + [data])
  {
    var at := FIRMWARE_BLOCK_SIZE * (block - 1) + FIRMWARE_START_OFFSET;
    var end := FIRMWARE_START_OFFSET + FIRMWARE_BLOCK_SIZE * blocks;
    var mem', all := Programmed(both, mem, at, data), replies + [data];
    assert all[..|all| - 1] == replies;
    forall k | 0 <= k < FIRMWARE_BLOCK_SIZE
      ensures mem'[at + k] == data[k]
    {
      assert data[k] in data;
    }
    assert mem'[at..at + FIRMWARE_BLOCK_SIZE] == data;
    ProgrammedParts(both, mem, at, data, at + FIRMWARE_BLOCK_SIZE, end);
    assert mem'[at..end] == mem'[at..at + FIRMWARE_BLOCK_SIZE] + mem'[at + FIRMWARE_BLOCK_SIZE..end];
  }

  /** Block i of an image. */
  function Block<T>(image: seq<T>, i: nat): seq<T>
    requires FIRMWARE_BLOCK_SIZE * (i + 1) <= |image|
  {
    image[FIRMWARE_BLOCK_SIZE * i..FIRMWARE_BLOCK_SIZE * (i + 1)]
  }

  /** The blocks of an image in the order in which they are asked for. */
  function Requested<T>(image: seq<T>, n: nat): (blocks: seq<seq<T>>)
    requires |image| == FIRMWARE_BLOCK_SIZE * n
    ensures |blocks| == n && AreBlocks(blocks)
  {
    seq(n, i requires 0 <= i < n => Block(image, n - 1 - i))
  }

  lemma {:induction false} JoinedRequested<T>(image: seq<T>, n: nat)
    requires |image| == FIRMWARE_BLOCK_SIZE * n
    ensures Joined(Requested(image, n)) == image
  {
    if n == 0 {
    } else {
      var rest := image[FIRMWARE_BLOCK_SIZE..];
      JoinedRequested(rest, n - 1);
      RequestedSplit(image, n);
      assert image == image[..FIRMWARE_BLOCK_SIZE] + rest;
    }
  }

  lemma RequestedAt<T>(image: seq<T>, n: nat, k: nat)
    requires |image| == FIRMWARE_BLOCK_SIZE * n && 1 <= k <= n
    ensures Requested(image, n)[n - k] == Block(image, k - 1)
    ensures Requested(image, n)[..n - k] + [Block(image, k - 1)] == Requested(image, n)[..n - (k - 1)]
  {
  }

  lemma AllRequested<T>(image: seq<T>, n: nat, blocks: seq<seq<T>>, replies: seq<seq<T>>)
    requires |image| == FIRMWARE_BLOCK_SIZE * n && blocks == Requested(image, n)
    ensures replies == blocks[..n] ==> AreBlocks(replies) && Joined(replies) == image
  {
    assert blocks[..n] == blocks;
    JoinedRequested(image, n);
  }

  lemma BlockShift<T>(image: seq<T>, j: nat)
    requires FIRMWARE_BLOCK_SIZE * (j + 2) <= |image|
    ensures Block(image, j + 1) == Block(image[FIRMWARE_BLOCK_SIZE..], j)
  {
    var a, b := Block(image, j + 1), Block(image[FIRMWARE_BLOCK_SIZE..], j);
    assert |a| == |b| == FIRMWARE_BLOCK_SIZE;
    forall k | 0 <= k < FIRMWARE_BLOCK_SIZE
      ensures a[k] == b[k]
    {
      assert a[k] == image[FIRMWARE_BLOCK_SIZE * (j + 1) + k];
    }
  }

  lemma RequestedSplit<T>(image: seq<T>, n: nat)
    requires |image| == FIRMWARE_BLOCK_SIZE * n && n > 0
    ensures Requested(image, n)[..n - 1] == Requested(image[FIRMWARE_BLOCK_SIZE..], n - 1)
    ensures Requested(image, n)[n - 1] == image[..FIRMWARE_BLOCK_SIZE]
  {
    assert Block(image, 0) == image[..FIRMWARE_BLOCK_SIZE];
    forall i | 0 <= i < n - 1
      ensures Requested(image, n)[i] == Requested(image[FIRMWARE_BLOCK_SIZE..], n - 1)[i]
    {
      BlockShift(image, n - 2 - i);
    }
  }

  lemma {:induction false} JoinedInjective<T>(a: seq<seq<T>>, b: seq<seq<T>>)
    requires AreBlocks(a) && AreBlocks(b) && |a| == |b| && Joined(a) == Joined(b)
    ensures a == b
  {
    if a == [] {
    } else {
      var n := |a| - 1;
      SameParts(a[n], Joined(a[..n]), b[n], Joined(b[..n]));
      JoinedInjective(a[..n], b[..n]);
      assert a == a[..n] + [a[n]] && b == b[..n] + [b[n]];
    }
  }

  lemma SameParts<T>(a: seq<T>, b: seq<T>, c: seq<T>, d: seq<T>)
    requires a + b == c + d && |a| == |c|
    ensures a == c && b == d
  {
    assert a == (a + b)[..|a|] && c == (c + d)[..|c|];
    assert b == (a + b)[|a|..] && d == (c + d)[|c|..];
  }

  /** The image arrives intact exactly if every reply carries the block that was asked for. */
  lemma JoinedIsImage<T>(replies: seq<seq<T>>, image: seq<T>)
    requires AreBlocks(replies) && |image| == FIRMWARE_BLOCK_SIZE * |replies|
    ensures Joined(replies) == image <==> replies == Requested(image, |replies|)
  {
    JoinedRequested(image, |replies|);
    if Joined(replies) == image {
      JoinedInjective(replies, Requested(image, |replies|));
    }
  }
}

/** The state of the update and its two entry points. */
module OtaUpdate {
  import opened Clocks
  import opened Crc16
  import opened CrcBits
  import opened FlashMemory
  import opened OtaImage
  import Octets
  import opened Recurrence
  import opened SerialBits

  const MY_OTA_RETRY := 5
  const MY_OTA_RETRY_DELAY := 500
  const ERASED: Byte := 0xff

  datatype NodeFirmwareConfig = NodeFirmwareConfig(ftype: nat, version: nat, blocks: nat, crc: Register)

  /** "FLXIMG:", the size with the high byte first, and ":". */
  function Signature(size: nat): (s: seq<Byte>)
    requires size < 0x1_0000
    ensures |s| == FIRMWARE_START_OFFSET
  {
    [0x46, 0x4c, 0x58, 0x49, 0x4d, 0x47, 0x3a, (size / 0x100) as bv8, (size % 0x100) as bv8, 0x3a]
  }

  /** What a boot loader makes of the size field: two bytes, the high one first. */
  function SizeField(s: seq<Byte>): nat
    requires |s| >= 9
  {
    0x100 * (s[7] as nat) + s[8] as nat
  }

  lemma SignatureSize(size: nat)
    requires size < 0x1_0000
    ensures SizeField(Signature(size)) == size
  {
    Octets.OctetAsNumber(size / 0x100);
    Octets.OctetAsNumber(size % 0x100);
  }

  /** Programming an erased byte stores it. */
  lemma ErasedTakes(data: seq<Byte>)
    ensures forall x :: x in data ==> And(ERASED, x) == x
  {
    forall x | x in data
      ensures And(ERASED, x) == x
    {
      AndErased(x);
    }
  }

  /** The CRC of the image in the flash, from all ones. */
  function ImageCrc(image: seq<Byte>): Register {
    CrcRight(0xffff, image)
  }

  /** The inner loop of transportIsValidFirmware. */
  method MixByte(crc0: Register, d: Byte) returns (crc: Register)
    ensures crc == Fold(Right, crc0, BitsOf(d))
  {
    crc := Mixed(crc0, Widened(d));
    ghost var start := crc;
    var j := 0;
    while j < 8
      invariant 0 <= j <= 8 && crc == Turned(start, j)
    {
      TurnedOnce(start, j);
      crc := Right(crc, false);
      j := j + 1;
    }
    ByteIsMixed(crc0, d);
  }

  lemma CrcStep(seed: Register, data: seq<Byte>, i: nat)
    requires i < |data|
    ensures CrcRight(seed, data[..i + 1]) == Fold(Right, CrcRight(seed, data[..i]), BitsOf(data[i]))
  {
    assert data[..i + 1][..i] == data[..i];
    FoldAppend(Right, seed, Bits(data[..i]), BitsOf(data[i]));
  }

  // What answers an update needs

  /** A run at this time asks again, if the last request was made at time last. */
  predicate IsDue(time: nat, last: nat) {
    (time - last) % CLOCK_RANGE > MY_OTA_RETRY_DELAY
  }

  /** What became of the requests at those of the runs that are due, and the time of the last one; a reply resets it. */
  function DueRuns(times: seq<nat>, answered: seq<bool>): (due: (seq<bool>, nat))
    requires |times| == |answered|
  {
    if times == [] then ([], 0)
    else
      var n := |times| - 1;
      OneRun(DueRuns(times[..n], answered[..n]), times[n], answered[n])
  }

  function OneRun(due: (seq<bool>, nat), time: nat, answer: bool): (seq<bool>, nat) {
    if IsDue(time, due.1) then (due.0 + [answer], if answer then 0 else time) else due
  }

  lemma DueRunsStep(times: seq<nat>, answered: seq<bool>, i: nat)
    requires |times| == |answered| && i < |times|
    ensures DueRuns(times[..i + 1], answered[..i + 1]) ==
      OneRun(DueRuns(times[..i], answered[..i]), times[i], answered[i])
  {
    assert times[..i + 1][..i] == times[..i] && answered[..i + 1][..i] == answered[..i];
  }

  function Count(answered: seq<bool>): (n: nat)
    ensures n <= |answered|
  {
    if answered == [] then 0
    else Count(answered[..|answered| - 1]) + if answered[|answered| - 1] then 1 else 0
  }

  /** No six requests in a row go without an answer. */
  predicate Patient(answered: seq<bool>) {
    forall i :: MY_OTA_RETRY < i <= |answered| ==> Unbroken(answered, i)
  }

  predicate Unbroken(answered: seq<bool>, i: nat)
    requires MY_OTA_RETRY < i <= |answered|
  {
    exists j :: i - MY_OTA_RETRY - 1 <= j < i && answered[j]
  }

  /** As many answers as there are blocks come in before six requests in a row go without one. */
  predicate Completes(blocks: nat, answered: seq<bool>) {
    exists n :: 0 <= n <= |answered| && Suffices(blocks, answered[..n])
  }

  predicate Suffices(blocks: nat, answered: seq<bool>) {
    Count(answered) == blocks && Patient(answered)
  }

  /** The blocks that are missing and the tries that are left, when each request is due. */
  function Missing(blocks: nat, answered: seq<bool>): (nat, nat) {
    if answered == [] then (blocks, MY_OTA_RETRY + 1)
    else
      var n := |answered| - 1;
      Requesting(Missing(blocks, answered[..n]), answered[n])
  }

  /** One request that is due. */
  function Requesting(missing: (nat, nat), answer: bool): (nat, nat) {
    var (block, retry) := missing;
    if block == 0 || retry == 0 then missing
    else if answer then (block - 1, MY_OTA_RETRY + 1)
    else (block, retry - 1)
  }

  lemma MissingStep(blocks: nat, answered: seq<bool>, answer: bool)
    ensures Missing(blocks, answered + [answer]) == Requesting(Missing(blocks, answered), answer)
  {
    assert (answered + [answer])[..|answered|] == answered;
  }

  /** All answers have been used, and the tries used are those since the last answer. */
  predicate Fetching(blocks: nat, answered: seq<bool>, block: nat, retry: nat) {
    && Patient(answered) && Count(answered) + block == blocks && 0 < retry <= MY_OTA_RETRY + 1
    && var since := MY_OTA_RETRY + 1 - retry;
    && since <= |answered| && (forall j :: |answered| - since <= j < |answered| ==> !answered[j])
    && (since < |answered| ==> answered[|answered| - since - 1])
  }

  /** No continuation can bring all blocks any more. */
  predicate GivenUp(blocks: nat, answered: seq<bool>) {
    exists n :: 0 <= n <= |answered| && Fails(blocks, answered[..n])
  }

  predicate Fails(blocks: nat, answered: seq<bool>) {
    Count(answered) < blocks && !Patient(answered)
  }

  lemma {:induction false} CountGrows(answered: seq<bool>, n: nat)
    requires n <= |answered|
    ensures Count(answered[..n]) <= Count(answered)
  {
    if n < |answered| {
      var rest := answered[..|answered| - 1];
      CountGrows(rest, n);
      assert rest[..n] == answered[..n];
    } else {
      assert answered[..n] == answered;
    }
  }

  /** Patience with all answers is patience with the first of them. */
  lemma PatientBefore(answered: seq<bool>, n: nat)
    requires n <= |answered| && Patient(answered)
    ensures Patient(answered[..n])
  {
    forall i | MY_OTA_RETRY < i <= n
      ensures Unbroken(answered[..n], i)
    {
      assert Unbroken(answered, i);
      var j :| i - MY_OTA_RETRY - 1 <= j < i && answered[j];
      assert answered[..n][j];
    }
  }

  /** One more request while the update is going on. */
  lemma FetchingStep(blocks: nat, answered: seq<bool>, more: seq<bool>, block: nat, retry: nat)
    requires Fetching(blocks, answered, block, retry) && 0 < block && |more| == |answered| + 1
    requires more[..|answered|] == answered
    ensures
      if more[|answered|] then Fetching(blocks, more, block - 1, MY_OTA_RETRY + 1)
      else if retry > 1 then Fetching(blocks, more, block, retry - 1)
      else Fails(blocks, more)
  {
    var n := |answered|;
    forall j | 0 <= j < n
      ensures more[j] == answered[j]
    {
      assert more[..n][j] == answered[j];
    }
    if more[n] || retry > 1 {
      forall i | MY_OTA_RETRY < i <= n + 1
        ensures Unbroken(more, i)
      {
        if i <= n {
          assert Unbroken(answered, i);
          var j :| i - MY_OTA_RETRY - 1 <= j < i && answered[j];
          assert more[j];
        } else {
          var j := if more[n] then n else n - (MY_OTA_RETRY + 1 - retry) - 1;
          assert more[j];
        }
      }
    } else {
      assert !Unbroken(more, n + 1);
    }
  }

  lemma {:induction false} MissingSplits(blocks: nat, answered: seq<bool>)
    ensures
      var (block, retry) := Missing(blocks, answered);
      if block == 0 then Completes(blocks, answered)
      else if retry == 0 then GivenUp(blocks, answered)
      else Fetching(blocks, answered, block, retry)
  {
    if answered == [] {
      assert blocks == 0 ==> Suffices(blocks, answered[..0]);
    } else {
      var n := |answered| - 1;
      var rest := answered[..n];
      var (block, retry) := Missing(blocks, rest);
      MissingSplits(blocks, rest);
      assert answered[..n + 1] == answered;
      if block == 0 {
        var k :| 0 <= k <= n && Suffices(blocks, rest[..k]);
        assert rest[..k] == answered[..k];
      } else if retry == 0 {
        var k :| 0 <= k <= n && Fails(blocks, rest[..k]);
        assert rest[..k] == answered[..k];
      } else {
        FetchingStep(blocks, rest, answered, block, retry);
        assert answered[n] && block == 1 ==> Suffices(blocks, answered[..n + 1]);
      }
    }
  }

  lemma SufficesOrFails(blocks: nat, answered: seq<bool>, n: nat, k: nat)
    requires n <= |answered| && k <= |answered| && Suffices(blocks, answered[..n])
    ensures !Fails(blocks, answered[..k])
  {
    if n <= k {
      CountGrows(answered[..k], n);
      assert answered[..k][..n] == answered[..n];
    } else {
      PatientBefore(answered[..n], k);
      assert answered[..n][..k] == answered[..k];
    }
  }

  /** Nothing is missing in the end exactly if the answers suffice. */
  lemma MissingNothing(blocks: nat, answered: seq<bool>)
    ensures Missing(blocks, answered).0 == 0 <==> Completes(blocks, answered)
  {
    MissingSplits(blocks, answered);
    if Completes(blocks, answered) {
      var n :| 0 <= n <= |answered| && Suffices(blocks, answered[..n]);
      CountGrows(answered, n);
      forall k | 0 <= k <= |answered|
        ensures !Fails(blocks, answered[..k])
      {
        SufficesOrFails(blocks, answered, n, k);
      }
    }
  }

  /** How far an update is. */
  datatype Progress = Progress(block: nat, retry: nat, ongoing: bool, last: nat)

  /** The requests that were due have been made, as far as blocks and tries have lasted. */
  predicate Tracks(blocks: nat, due: (seq<bool>, nat), p: Progress) {
    && Missing(blocks, due.0) == (p.block, p.retry)
    && (p.block > 0 && p.retry > 0 ==> p.ongoing && p.last == due.1)
  }

  /** One run of the node, by what Request and a reply do. */
  lemma {:induction false} TracksOn(blocks: nat, due: (seq<bool>, nat), time: nat, answer: bool, p: Progress,
                                    q: Progress)
    requires Tracks(blocks, due, p) && (p.ongoing ==> p.block > 0)
    requires
      var asked := p.ongoing && IsDue(time, p.last) && p.retry > 0;
      if asked && answer then
        q.block == p.block - 1 && q.retry == MY_OTA_RETRY + 1 && q.last == 0 && (q.block > 0 ==> q.ongoing)
      else if asked then q == Progress(p.block, p.retry - 1, true, time)
      else q.block == p.block && q.retry == p.retry && q.last == p.last && (p.retry > 0 ==> q.ongoing == p.ongoing)
    ensures Tracks(blocks, OneRun(due, time, answer), q)
  {
    MissingStep(blocks, due.0, answer);
  }

  class FirmwareUpdate {
    var fc: NodeFirmwareConfig
    var fwUpdateOngoing: bool
    var fwLastRequestTime: nat
    var fwBlock: nat
    var fwRetry: nat
    const flash: SPIFlash<Byte>
    var eeprom: NodeFirmwareConfig
    var rebooted: bool
    /** The replies since the update began. */
    ghost var replies: seq<seq<Byte>>

    constructor (fc: NodeFirmwareConfig, flash: SPIFlash<Byte>)
      ensures this.fc == eeprom == fc && this.flash == flash && !fwUpdateOngoing && !rebooted
    {
      this.fc, eeprom, this.flash := fc, fc, flash;
      fwUpdateOngoing, fwLastRequestTime, fwBlock, fwRetry, rebooted := false, 0, 0, 0, false;
      replies := [];
    }

    /** While an update is going on, the flash holds the replies and waits for block fwBlock - 1. */
    ghost predicate Valid()
      reads this, flash
    {
      && flash.Valid() && BLOCK_32K <= |flash.mem| && fwRetry <= MY_OTA_RETRY + 1
      && (fwUpdateOngoing ==> 1 <= fwBlock && Holds(flash.mem, ERASED, fc.blocks, fwBlock, replies))
    }

    /** A configuration that differs from the present one starts an update; the flash may fail to come up. */
    method ProcessConfig(config: NodeFirmwareConfig) returns (handled: bool)
      requires Valid() && 0 < config.blocks && Fits(config.blocks)
      modifies this, flash
      ensures Valid() && handled == (config != old(fc)) && fc == config && eeprom == old(eeprom)
      ensures rebooted == old(rebooted)
      ensures !handled ==> fwUpdateOngoing == old(fwUpdateOngoing) && flash.mem == old(flash.mem)
      ensures handled && fwUpdateOngoing ==>
        fwBlock == config.blocks && fwRetry == MY_OTA_RETRY + 1 && fwLastRequestTime == 0 && replies == []
    {
      handled := fc != config;
      if handled {
        fc := config;
        var up: bool := *;
        if !up {
          fwUpdateOngoing := false;
        } else {
          flash.BlockErase32K(0, ERASED);
          fwBlock := fc.blocks;
          fwUpdateOngoing := true;
          fwRetry := MY_OTA_RETRY + 1;
          fwLastRequestTime := 0;
          replies := [];
        }
      }
    }

    /** firmwareOTAUpdateRequest: asks for the next block, or gives up after six requests without a reply. */
    method Request(enter: nat) returns (asked: bool)
      requires Valid()
      modifies this`fwUpdateOngoing, this`fwRetry, this`fwLastRequestTime
      ensures Valid() && fwRetry + (if asked then 1 else 0) == old(fwRetry)
      ensures var due := old(fwUpdateOngoing) && (enter - old(fwLastRequestTime)) % 0x1_0000_0000 > 500;
        && fwLastRequestTime == (if asked then enter else old(fwLastRequestTime))
        && asked == (due && old(fwRetry) > 0)
        && (fwUpdateOngoing <==> old(fwUpdateOngoing) && !(due && old(fwRetry) == 0))
    {
      asked := false;
      if fwUpdateOngoing && IsDue(enter, fwLastRequestTime) {
        if fwRetry == 0 {
          fwUpdateOngoing := false;
          return;
        }
        fwRetry := fwRetry - 1;
        fwLastRequestTime := enter;
        asked := true;
      }
    }

    /** transportIsValidFirmware. */
    method IsValidFirmware() returns (valid: bool)
      requires Fits(fc.blocks) && BLOCK_32K <= |flash.mem|
      ensures valid <==> ImageCrc(Image()) == fc.crc
    {
      var crc: Register := 0xffff;
      ghost var image := Image();
      var i := 0;
      while i < fc.blocks * FIRMWARE_BLOCK_SIZE
        invariant 0 <= i <= |image| && crc == CrcRight(0xffff, image[..i])
      {
        CrcStep(0xffff, image, i);
        var d := flash.ReadByte(i + FIRMWARE_START_OFFSET);
        crc := MixByte(crc, d);
        i := i + 1;
      }
      assert image[..i] == image;
      valid := crc == fc.crc;
    }

    /** The bytes of the image in the flash. */
    ghost function Image(): (image: seq<Byte>)
      requires Fits(fc.blocks) && BLOCK_32K <= |flash.mem|
      reads this`fc, flash
      ensures |image| == FIRMWARE_BLOCK_SIZE * fc.blocks
    {
      flash.mem[FIRMWARE_START_OFFSET..FIRMWARE_START_OFFSET + FIRMWARE_BLOCK_SIZE * fc.blocks]
    }

    /** The outcome of an update: the image is in the flash, and the rest depends on its CRC. */
    ghost predicate Installed(image: seq<Byte>, before: NodeFirmwareConfig, booted: bool)
      reads this`fwUpdateOngoing, this`fc, this`eeprom, this`rebooted, flash
    {
      && !fwUpdateOngoing && Fits(fc.blocks) && BLOCK_32K <= |flash.mem| && Image() == image
      && var ok := ImageCrc(image) == fc.crc;
      && flash.mem[..FIRMWARE_START_OFFSET] ==
           (if ok then Signature(FIRMWARE_BLOCK_SIZE * fc.blocks) else seq(FIRMWARE_START_OFFSET, i => ERASED))
      && eeprom == (if ok then fc else before) && rebooted == (ok || booted)
    }

    /** The boot loader finds the size of the image that is installed. */
    lemma SizeIsFound(image: seq<Byte>, before: NodeFirmwareConfig, booted: bool)
      requires Installed(image, before, booted) && ImageCrc(image) == fc.crc
      ensures SizeField(flash.mem) == 16 * fc.blocks
    {
      SignatureSize(FIRMWARE_BLOCK_SIZE * fc.blocks);
      assert flash.mem[7] == flash.mem[..FIRMWARE_START_OFFSET][7];
      assert flash.mem[8] == flash.mem[..FIRMWARE_START_OFFSET][8];
    }

    /** A reply is taken for the block that was asked for last. */
    method ProcessResponse(data: seq<Byte>)
      requires Valid() && |data| == FIRMWARE_BLOCK_SIZE
      modifies this, flash
      ensures Valid() && fc == old(fc)
      ensures !old(fwUpdateOngoing) ==>
        !fwUpdateOngoing && Unchanged(old(fwBlock), old(eeprom), old(rebooted), old(flash.mem))
      ensures old(fwUpdateOngoing) ==>
        && fwBlock == old(fwBlock) - 1 && replies == old(replies) + [data]
        && fwRetry == MY_OTA_RETRY + 1 && fwLastRequestTime == 0
        && (fwUpdateOngoing <==> fwBlock > 0)
        && (fwBlock > 0 ==> eeprom == old(eeprom) && rebooted == old(rebooted))
      ensures old(fwUpdateOngoing) && fwBlock == 0 ==>
        AreBlocks(replies) && Installed(Joined(replies), old(eeprom), old(rebooted))
    {
      if fwUpdateOngoing {
        StoreBlock(data);
        if fwBlock == 0 {
          Finish();
        }
        fwRetry := MY_OTA_RETRY + 1;
        fwLastRequestTime := 0;
      }
    }

    ghost predicate Unchanged(block: nat, config: NodeFirmwareConfig, reboot: bool, mem: seq<Byte>)
      reads this, flash
    {
      fwBlock == block && eeprom == config && rebooted == reboot && flash.mem == mem
    }

    method StoreBlock(data: seq<Byte>)
      requires Valid() && fwUpdateOngoing && |data| == FIRMWARE_BLOCK_SIZE
      modifies this`fwBlock, this`replies, flash
      ensures flash.Valid() && BLOCK_32K <= |flash.mem| && fwBlock == old(fwBlock) - 1
      ensures replies == old(replies) + [data]
      ensures Holds(flash.mem, ERASED, fc.blocks, fwBlock, replies)
    {
      ErasedTakes(data);
      BlockWritten(And, ERASED, flash.mem, fc.blocks, fwBlock, replies, data);
      flash.WriteBytes(FIRMWARE_BLOCK_SIZE * (fwBlock - 1) + FIRMWARE_START_OFFSET, data, And);
      fwBlock := fwBlock - 1;
      replies := replies + [data];
    }

    /** All blocks are there: the signature and the configuration are written only if the CRC is right. */
    method Finish()
      requires flash.Valid() && BLOCK_32K <= |flash.mem| && Holds(flash.mem, ERASED, fc.blocks, 0, replies)
      modifies this`fwUpdateOngoing, this`eeprom, this`rebooted, flash
      ensures flash.Valid() && |flash.mem| == |old(flash.mem)|
      ensures Installed(Joined(replies), old(eeprom), old(rebooted))
    {
      fwUpdateOngoing := false;
      var ok := IsValidFirmware();
      if ok {
        WriteSignature();
        eeprom := fc;
        rebooted := true;
      }
    }

    method WriteSignature()
      requires flash.Valid() && BLOCK_32K <= |flash.mem| && Holds(flash.mem, ERASED, fc.blocks, 0, replies)
      modifies flash
      ensures flash.Valid() && |flash.mem| == |old(flash.mem)| && Image() == old(Image())
      ensures flash.mem[..FIRMWARE_START_OFFSET] == Signature(FIRMWARE_BLOCK_SIZE * fc.blocks)
    {
      var signature := Signature(FIRMWARE_BLOCK_SIZE * fc.blocks);
      ErasedTakes(signature);
      SignatureWritten(flash.mem, signature, fc.blocks);
      flash.WriteBytes(0, signature, And);
    }

    /**
     A whole update: the node runs at the given times, and answered says whether its request and the reply both get
     through; a reply carries the block that was asked for.  The update has either stored the whole image, or some
     blocks are missing and nothing has been installed.  The image is stored exactly if enough of the requests that are
     due are answered before six of them in a row are not.
     */
    method Download(image: seq<Byte>, times: seq<nat>, answered: seq<bool>)
      requires Valid() && fwUpdateOngoing && fwBlock == fc.blocks && |answered| == |times|
      requires Fits(fc.blocks) && |image| == FIRMWARE_BLOCK_SIZE * fc.blocks
      modifies this, flash
      ensures Valid() && fc == old(fc) && fwBlock <= fc.blocks
      ensures if fwBlock == 0 then Installed(image, old(eeprom), old(rebooted))
        else eeprom == old(eeprom) && rebooted == old(rebooted)
      ensures old(fwRetry) == MY_OTA_RETRY + 1 && old(fwLastRequestTime) == 0 ==>
        (fwBlock == 0 <==> Completes(fc.blocks, DueRuns(times, answered).0))
    {
      ghost var whole := fwRetry == MY_OTA_RETRY + 1 && fwLastRequestTime == 0;
      ghost var blocks := Requested(image, fc.blocks);
      for i := 0 to |times|
        invariant Underway(image, blocks, old(eeprom), old(rebooted)) && fc == old(fc)
        invariant whole ==> Follows(DueRuns(times[..i], answered[..i]))
      {
        DueRunsStep(times, answered, i);
        Turn(times[i], answered[i], image, blocks, DueRuns(times[..i], answered[..i]), old(eeprom), old(rebooted));
      }
      assert times[..|times|] == times && answered[..|times|] == answered;
      MissingNothing(fc.blocks, DueRuns(times, answered).0);
    }

    /** The replies so far are the last blocks of the image. */
    ghost predicate Underway(image: seq<Byte>, blocks: seq<seq<Byte>>, before: NodeFirmwareConfig, booted: bool)
      reads this, flash
    {
      && Valid() && Fits(fc.blocks) && |image| == FIRMWARE_BLOCK_SIZE * fc.blocks
      && fwBlock <= fc.blocks && blocks == Requested(image, fc.blocks) && replies == blocks[..fc.blocks - fwBlock]
      && Settled(image, before, booted)
    }

    /** The node has made the requests that were due, as far as blocks and tries have lasted. */
    ghost predicate Follows(due: (seq<bool>, nat))
      reads this
    {
      Tracks(fc.blocks, due, Progress(fwBlock, fwRetry, fwUpdateOngoing, fwLastRequestTime))
    }

    ghost predicate Settled(image: seq<Byte>, before: NodeFirmwareConfig, booted: bool)
      reads this, flash
    {
      if fwBlock == 0 then Installed(image, before, booted) else eeprom == before && rebooted == booted
    }

    /** The node runs once. */
    method Turn(time: nat, answer: bool, image: seq<Byte>, ghost blocks: seq<seq<Byte>>, ghost due: (seq<bool>, nat),
                ghost before: NodeFirmwareConfig, ghost booted: bool)
      requires Underway(image, blocks, before, booted)
      modifies this, flash
      ensures Underway(image, blocks, before, booted) && fc == old(fc)
      ensures old(Follows(due)) ==> Follows(OneRun(due, time, answer))
    {
      ghost var at := Progress(fwBlock, fwRetry, fwUpdateOngoing, fwLastRequestTime);
      var asked := Ask(time, image, blocks, before, booted);
      if asked && answer {
        Serve(image, blocks, before, booted);
      }
      if Tracks(fc.blocks, due, at) {
        TracksOn(fc.blocks, due, time, answer, at,
          Progress(fwBlock, fwRetry, fwUpdateOngoing, fwLastRequestTime));
      }
    }

    /** A request changes nothing of what has been stored. */
    method Ask(time: nat, ghost image: seq<Byte>, ghost blocks: seq<seq<Byte>>, ghost before: NodeFirmwareConfig,
               ghost booted: bool) returns (asked: bool)
      requires Underway(image, blocks, before, booted)
      modifies this`fwUpdateOngoing, this`fwRetry, this`fwLastRequestTime
      ensures Underway(image, blocks, before, booted) && (asked ==> fwUpdateOngoing)
      ensures var due := old(fwUpdateOngoing) && IsDue(time, old(fwLastRequestTime));
        && fwRetry + (if asked then 1 else 0) == old(fwRetry)
        && fwLastRequestTime == (if asked then time else old(fwLastRequestTime))
        && asked == (due && old(fwRetry) > 0)
        && (fwUpdateOngoing <==> old(fwUpdateOngoing) && !(due && old(fwRetry) == 0))
    {
      asked := Request(time);
    }

    /** One reply that is the block asked for. */
    method Serve(image: seq<Byte>, ghost blocks: seq<seq<Byte>>, ghost before: NodeFirmwareConfig, ghost booted: bool)
      requires Underway(image, blocks, before, booted) && fwUpdateOngoing
      modifies this, flash
      ensures Underway(image, blocks, before, booted) && fc == old(fc) && fwBlock == old(fwBlock) - 1
      ensures fwRetry == MY_OTA_RETRY + 1 && fwLastRequestTime == 0 && (fwBlock > 0 ==> fwUpdateOngoing)
    {
      RequestedAt(image, fc.blocks, fwBlock);
      var block := Block(image, fwBlock - 1);
      ProcessResponse(block);
      if fwBlock == 0 {
        AllRequested(image, fc.blocks, blocks, replies);
      }
    }

    /** Requests that nobody answers: at most six for one block, then the update is given up. */
    method Unanswered(times: seq<nat>) returns (asked: nat)
      requires Valid() && fwUpdateOngoing
      modifies this`fwUpdateOngoing, this`fwRetry, this`fwLastRequestTime
      ensures Valid() && asked + fwRetry == old(fwRetry) && asked <= MY_OTA_RETRY + 1
    {
      asked := 0;
      for i := 0 to |times|
        invariant Valid() && asked + fwRetry == old(fwRetry)
      {
        var again := Request(times[i]);
        asked := asked + if again then 1 else 0;
      }
    }
  }

  lemma SignatureWritten(mem: seq<Byte>, signature: seq<Byte>, blocks: nat)
    requires Fits(blocks) && BLOCK_32K <= |mem| && |signature| == FIRMWARE_START_OFFSET
    requires forall x :: x in signature ==> And(ERASED, x) == x
    requires forall k :: 0 <= k < FIRMWARE_START_OFFSET ==> mem[k] == ERASED
    ensures
      var mem' := Programmed(And, mem, 0, signature);
      var end := FIRMWARE_START_OFFSET + FIRMWARE_BLOCK_SIZE * blocks;
      && mem'[..FIRMWARE_START_OFFSET] == signature
      && mem'[FIRMWARE_START_OFFSET..end] == mem[FIRMWARE_START_OFFSET..end]
  {
    var mem' := Programmed(And, mem, 0, signature);
    forall k | 0 <= k < FIRMWARE_START_OFFSET
      ensures mem'[k] == signature[k]
    {
      assert signature[k] in signature;
    }
  }
}
