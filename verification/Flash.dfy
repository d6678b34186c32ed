/**
 The main-memory part of the flash driver stm32f37x_flash.c, over a device that answers every read of
 its status register as it likes.
 */
module Flash {

  type half = h: int | 0 <= h < 0x1_0000
  type word = w: int | 0 <= w < 0x1_0000_0000

  const ERASED_HALF: half := 0xFFFF
  const ERASED_WORD: word := 0xFFFF_FFFF

  const SR_BSY: bv32 := 0x01
  const SR_PGERR: bv32 := 0x04
  const SR_WRPERR: bv32 := 0x10

  const CR_PG: bv32 := 0x01
  const CR_PER: bv32 := 0x02
  const CR_MER: bv32 := 0x04
  const CR_STRT: bv32 := 0x40
  const CR_LOCK: bv32 := 0x80

  const ER_PRG_TIMEOUT: nat := 0x000B_0000

  datatype Status = Busy | ErrorWrp | ErrorProgram | Complete | Timeout

  function WordOf(lo: half, hi: half): word { lo + 0x1_0000 * hi }

  function SetBits(cr: bv32, bits: bv32): bv32 { cr | bits }

  function ClearBits(cr: bv32, bits: bv32): bv32 { cr & !bits }

  predicate HasBits(cr: bv32, bits: bv32) { cr & bits != 0 }

  /** The status that the reads of one poll mean: the register is read again for each bit that is looked at. */
  predicate Means(read: seq<bv32>, status: Status) {
    match |read|
    case 1 => status == Busy && read[0] & SR_BSY != 0
    case 2 => status == ErrorWrp && read[0] & SR_BSY == 0 && read[1] & SR_WRPERR != 0
    case 3 =>
      && read[0] & SR_BSY == 0 && read[1] & SR_WRPERR == 0
      && status == if read[2] & SR_PGERR != 0 then ErrorProgram else Complete
    case _ => false
  }

  lemma OneBit(sr: bv32)
    ensures sr & SR_BSY == SR_BSY <==> sr & SR_BSY != 0
  {
  }

  /** While the register stays the same, the status is complete exactly when none of the three bits is set. */
  lemma SteadyStatus(read: seq<bv32>, sr: bv32, status: Status)
    requires Means(read, status) && forall k :: 0 <= k < |read| ==> read[k] == sr
    ensures status == Complete <==> sr & SR_BSY == 0 && sr & SR_WRPERR == 0 && sr & SR_PGERR == 0
    ensures status == Busy <==> sr & SR_BSY != 0
    ensures status == ErrorWrp <==> sr & SR_BSY == 0 && sr & SR_WRPERR != 0
  {
  }

  lemma SetClear(cr: bv32, mode: bv32)
    ensures (cr | mode) & !mode == cr & !mode
  {
  }

  lemma OrCommutes(cr: bv32, a: bv32, b: bv32)
    ensures (cr | a) | b == (cr | b) | a
  {
  }

  lemma SetBitsCommutes(cr: bv32, a: bv32, b: bv32)
    ensures SetBits(SetBits(cr, a), b) == SetBits(SetBits(cr, b), a)
  {
    OrCommutes(cr, a, b);
    assert SetBits(SetBits(cr, a), b) == (cr | a) | b;
    assert SetBits(SetBits(cr, b), a) == (cr | b) | a;
  }

  lemma ClearTest(cr: bv32, mode: bv32)
    ensures (cr & !mode) & mode == 0
  {
  }

  /** Setting a mode and clearing it again leaves the mode off and the other bits as they were. */
  lemma SetThenClear(cr: bv32, mode: bv32)
    ensures ClearBits(SetBits(cr, mode), mode) == ClearBits(cr, mode) && !HasBits(ClearBits(cr, mode), mode)
  {
    SetClear(cr, mode);
    ClearTest(cr, mode);
  }

  lemma StartThenClear(cr: bv32, mode: bv32)
    ensures ClearBits(SetBits(SetBits(cr, mode), CR_STRT), mode) == ClearBits(SetBits(cr, CR_STRT), mode)
  {
    hide SetBits, ClearBits, HasBits;
    SetBitsCommutes(cr, mode, CR_STRT);
    SetThenClear(SetBits(cr, CR_STRT), mode);
  }

  lemma LockIsKept(cr: bv32, mode: bv32)
    requires mode & CR_LOCK == 0
    ensures HasBits(ClearBits(cr, mode), CR_LOCK) == HasBits(SetBits(cr, CR_STRT), CR_LOCK) == HasBits(cr, CR_LOCK)
  {
  }

  lemma OrAnd(cr: bv32, mode: bv32, bits: bv32)
    requires mode & bits == 0
    ensures (cr | mode) & bits == cr & bits
  {
  }

  lemma LockIsNotSet(cr: bv32, mode: bv32)
    requires mode & CR_LOCK == 0
    ensures HasBits(SetBits(cr, mode), CR_LOCK) == HasBits(cr, CR_LOCK)
  {
    OrAnd(cr, mode, CR_LOCK);
  }

  /** A mode that is set is on, and stays on when another is set. */
  lemma ModesAreOn(cr: bv32, mode: bv32, other: bv32)
    requires mode != 0 && other != 0
    ensures HasBits(SetBits(cr, mode), mode)
    ensures HasBits(SetBits(SetBits(cr, mode), other), mode) && HasBits(SetBits(SetBits(cr, mode), other), other)
  {
  }

  /** All of the statuses are complete, from the index on. */
  predicate AllComplete(ss: seq<Status>, from: nat) {
    forall k :: from <= k < |ss| ==> ss[k] == Complete
  }

  class Device {
    /** Whether the device carries out what it is told; if not, the cells it works on may hold anything. */
    const sound: bool
    const page: array<half>
    /** The address of the page. */
    const base: nat
    var cr: bv32
    var ar: nat
    /** What every wait and every poll came to, and what every read of the status register gave. */
    ghost var waits: seq<Status>
    ghost var statuses: seq<Status>
    ghost var answers: seq<bv32>

    constructor (sound: bool, halves: nat, base: nat)
      ensures this.sound == sound && fresh(page) && page.Length == halves && this.base == base && Locked()
      ensures waits == [] && statuses == [] && answers == []
    {
      this.sound, this.base := sound, base;
      page := new half[halves];
      cr, ar, waits, statuses, answers := CR_LOCK, 0, [], [], [];
    }

    /** What makes the device erase its page: an unlocked start in a mode that selects it. */
    predicate Erases()
      reads this`cr, this`ar
    {
      !Locked() && HasBits(cr, CR_STRT) && (HasBits(cr, CR_MER) || (HasBits(cr, CR_PER) && ar == base))
    }

    /** What makes it program a half word that is written to the memory. */
    predicate Programs()
      reads this`cr
    {
      !Locked() && HasBits(cr, CR_PG)
    }

    predicate Locked()
      reads this`cr
    {
      HasBits(cr, CR_LOCK)
    }

    predicate ErasedFrom(i: nat)
      reads page
    {
      forall k :: i <= k < page.Length ==> page[k] == ERASED_HALF
    }

    function WordAt(i: nat): word
      requires 2 * i + 1 < page.Length
      reads page
    {
      WordOf(page[2 * i], page[2 * i + 1])
    }

    // ---------- the device ----------

    /** A read of SR. */
    method ReadStatus() returns (sr: bv32)
      modifies this`answers
      ensures answers == old(answers) + [sr]
    {
      sr := *;
      answers := answers + [sr];
    }

    /** The two keys written to KEYR. */
    method WriteKeys()
      modifies this`cr
      ensures cr == ClearBits(old(cr), CR_LOCK)
    {
      cr := ClearBits(cr, CR_LOCK);
    }

    /** STRT is set: a sound device erases its page if it is told to; otherwise the page may hold anything. */
    method RunErase()
      modifies page
      ensures sound && Erases() ==> ErasedFrom(0)
    {
      var erases := sound && Erases();
      var i := 0;
      while i < page.Length
        invariant i <= page.Length && (erases ==> forall k :: 0 <= k < i ==> page[k] == ERASED_HALF)
      {
        if erases {
          page[i] := ERASED_HALF;
        } else {
          page[i] := *;
        }
        i := i + 1;
      }
    }

    /** A half word written to the memory: a sound device in programming mode programs an erased cell. */
    method WriteHalf(i: nat, data: half)
      requires i < page.Length
      modifies page
      ensures sound && Programs() && old(page[i]) == ERASED_HALF ==> page[i] == data
      ensures forall k :: 0 <= k < page.Length && k != i ==> page[k] == old(page[k])
    {
      if sound && Programs() && page[i] == ERASED_HALF {
        page[i] := data;
      } else {
        page[i] := *;
      }
    }

    // ---------- the driver ----------

    /** FLASH_Unlock */
    method Unlock()
      modifies this`cr
      ensures !Locked() && cr == ClearBits(old(cr), CR_LOCK)
    {
      if HasBits(cr, CR_LOCK) {
        WriteKeys();
      }
    }

    /** FLASH_Lock */
    method Lock()
      modifies this`cr
      ensures Locked() && cr == SetBits(old(cr), CR_LOCK)
    {
      cr := SetBits(cr, CR_LOCK);
    }

    /** FLASH_GetStatus: a busy device is busy whatever its error bits say, and write protection comes first. */
    method GetStatus() returns (status: Status)
      modifies this`statuses, this`answers
      ensures status != Timeout && statuses == old(statuses) + [status]
      ensures old(answers) <= answers && Means(answers[|old(answers)|..], status)
    {
      var sr := ReadStatus();
      OneBit(sr);
      if sr & SR_BSY == SR_BSY {
        status := Busy;
      } else {
        sr := ReadStatus();
        if sr & SR_WRPERR != 0 {
          status := ErrorWrp;
        } else {
          sr := ReadStatus();
          if sr & SR_PGERR != 0 {
            status := ErrorProgram;
          } else {
            status := Complete;
          }
        }
      }
      statuses := statuses + [status];
    }

    /**
     FLASH_WaitForLastOperation: it polls until the device is not busy, but not more than timeout + 1
     times; when it has polled that often the result is a timeout, also if the last poll was not busy.
     */
    method WaitForLastOperation(timeout: nat) returns (status: Status)
      modifies this`waits, this`statuses, this`answers
      ensures waits == old(waits) + [status]
      ensures old(statuses) <= statuses && status != Busy
      ensures var polls := statuses[|old(statuses)|..];
        && 1 <= |polls| <= timeout + 1
        && (forall k :: 0 <= k < |polls| - 1 ==> polls[k] == Busy)
        && (status == Timeout <==> |polls| == timeout + 1)
        && (status != Timeout ==> status == polls[|polls| - 1])
        && (timeout > 0 && polls[0] == Complete ==> status == Complete)
    {
      status := GetStatus();
      var left: nat := timeout;
      while status == Busy && left != 0
        decreases left
        invariant old(statuses) <= statuses && |statuses| == |old(statuses)| + 1 + timeout - left && left <= timeout
        invariant status != Timeout && status == statuses[|statuses| - 1]
        invariant forall k :: |old(statuses)| <= k < |statuses| - 1 ==> statuses[k] == Busy
        invariant waits == old(waits)
      {
        status := GetStatus();
        left := left - 1;
      }
      if left == 0 {
        status := Timeout;
      }
      waits := waits + [status];
    }

    /** FLASH_ErasePage: whatever becomes of the erasure, the page erase mode is off again. */
    method ErasePage(address: nat) returns (status: Status)
      modifies this, page
      ensures sound && status == Complete && !old(Locked()) && address == base ==> ErasedFrom(0)
      ensures cr == old(cr) || cr == ClearBits(SetBits(old(cr), CR_STRT), CR_PER)
      ensures HasBits(cr, CR_PER) ==> HasBits(old(cr), CR_PER)
      ensures Locked() == old(Locked())
      ensures status != Busy && old(statuses) <= statuses
      ensures old(waits) < waits && status == waits[|waits| - 1]
      ensures status == Complete <==> AllComplete(waits, |old(waits)|)
      ensures |waits| <= |old(waits)| + 2 && (status == Complete ==> |waits| == |old(waits)| + 2)
      ensures AllComplete(statuses, |old(statuses)|) ==> status == Complete
    {
      hide SetBits, ClearBits, HasBits;
      StartThenClear(cr, CR_PER);
      SetThenClear(SetBits(cr, CR_STRT), CR_PER);
      LockIsKept(cr, CR_PER);
      LockIsNotSet(cr, CR_PER);
      LockIsNotSet(SetBits(cr, CR_PER), CR_STRT);
      LockIsKept(SetBits(cr, CR_STRT), CR_PER);
      ModesAreOn(cr, CR_PER, CR_STRT);
      status := WaitForLastOperation(ER_PRG_TIMEOUT);
      if status == Complete {
        cr := SetBits(cr, CR_PER);
        ar := address;
        cr := SetBits(cr, CR_STRT);
        RunErase();
        status := WaitForLastOperation(ER_PRG_TIMEOUT);
        cr := ClearBits(cr, CR_PER);
      }
    }

    /** FLASH_EraseAllPages, on the page that is modelled. */
    method EraseAllPages() returns (status: Status)
      modifies this, page
      ensures sound && status == Complete && !old(Locked()) ==> ErasedFrom(0)
      ensures cr == old(cr) || cr == ClearBits(SetBits(old(cr), CR_STRT), CR_MER)
      ensures HasBits(cr, CR_MER) ==> HasBits(old(cr), CR_MER)
      ensures Locked() == old(Locked())
      ensures status != Busy && old(statuses) <= statuses
      ensures old(waits) < waits && status == waits[|waits| - 1]
      ensures status == Complete <==> AllComplete(waits, |old(waits)|)
      ensures |waits| <= |old(waits)| + 2 && (status == Complete ==> |waits| == |old(waits)| + 2)
      ensures AllComplete(statuses, |old(statuses)|) ==> status == Complete
    {
      hide SetBits, ClearBits, HasBits;
      StartThenClear(cr, CR_MER);
      SetThenClear(SetBits(cr, CR_STRT), CR_MER);
      LockIsKept(cr, CR_MER);
      LockIsNotSet(cr, CR_MER);
      LockIsNotSet(SetBits(cr, CR_MER), CR_STRT);
      LockIsKept(SetBits(cr, CR_STRT), CR_MER);
      ModesAreOn(cr, CR_MER, CR_STRT);
      status := WaitForLastOperation(ER_PRG_TIMEOUT);
      if status == Complete {
        cr := SetBits(cr, CR_MER);
        cr := SetBits(cr, CR_STRT);
        RunErase();
        status := WaitForLastOperation(ER_PRG_TIMEOUT);
        cr := ClearBits(cr, CR_MER);
      }
    }

    /** FLASH_ProgramWord: the low half, and when that is done the high half; nothing else changes. */
    method ProgramWord(i: nat, data: word) returns (status: Status)
      requires 2 * i + 1 < page.Length
      modifies this, page
      ensures forall k :: 0 <= k < page.Length && k != 2 * i && k != 2 * i + 1 ==> page[k] == old(page[k])
      ensures sound && status == Complete && !old(Locked()) && old(page[2 * i] == page[2 * i + 1] == ERASED_HALF) ==>
        WordAt(i) == data
      ensures cr == old(cr) || cr == ClearBits(old(cr), CR_PG)
      ensures HasBits(cr, CR_PG) ==> HasBits(old(cr), CR_PG)
      ensures Locked() == old(Locked())
      ensures status != Busy && old(statuses) <= statuses
      ensures old(waits) < waits && status == waits[|waits| - 1]
      ensures status == Complete <==> AllComplete(waits, |old(waits)|)
      ensures |waits| <= |old(waits)| + 3 && (status == Complete ==> |waits| == |old(waits)| + 3)
      ensures AllComplete(statuses, |old(statuses)|) ==> status == Complete
    {
      hide SetBits, ClearBits, HasBits;
      SetThenClear(cr, CR_PG);
      LockIsKept(cr, CR_PG);
      LockIsNotSet(cr, CR_PG);
      ModesAreOn(cr, CR_PG, CR_PG);
      status := WaitForLastOperation(ER_PRG_TIMEOUT);
      if status == Complete {
        cr := SetBits(cr, CR_PG);
        WriteHalf(2 * i, data % 0x1_0000);
        status := WaitForLastOperation(ER_PRG_TIMEOUT);
        if status == Complete {
          WriteHalf(2 * i + 1, data / 0x1_0000);
          status := WaitForLastOperation(ER_PRG_TIMEOUT);
          cr := ClearBits(cr, CR_PG);
        } else {
          cr := ClearBits(cr, CR_PG);
        }
      }
    }

    /** FLASH_ProgramWord up to its middle, where the device loses power: only the low half is there. */
    method ProgramLowHalf(i: nat, data: word) returns (status: Status)
      requires 2 * i + 1 < page.Length
      modifies this, page
      ensures forall k :: 0 <= k < page.Length && k != 2 * i ==> page[k] == old(page[k])
      ensures sound && status == Complete && !old(Locked()) && old(page[2 * i]) == ERASED_HALF ==>
        page[2 * i] == data % 0x1_0000
      ensures old(statuses) <= statuses && (AllComplete(statuses, |old(statuses)|) ==> status == Complete)
    {
      hide SetBits, ClearBits, HasBits;
      LockIsNotSet(cr, CR_PG);
      ModesAreOn(cr, CR_PG, CR_PG);
      status := WaitForLastOperation(ER_PRG_TIMEOUT);
      if status == Complete {
        cr := SetBits(cr, CR_PG);
        WriteHalf(2 * i, data % 0x1_0000);
        status := WaitForLastOperation(ER_PRG_TIMEOUT);
      }
    }

    /** FLASH_ProgramHalfWord */
    method ProgramHalfWord(i: nat, data: half) returns (status: Status)
      requires i < page.Length
      modifies this, page
      ensures forall k :: 0 <= k < page.Length && k != i ==> page[k] == old(page[k])
      ensures sound && status == Complete && !old(Locked()) && old(page[i]) == ERASED_HALF ==> page[i] == data
      ensures cr == old(cr) || cr == ClearBits(old(cr), CR_PG)
      ensures HasBits(cr, CR_PG) ==> HasBits(old(cr), CR_PG)
      ensures Locked() == old(Locked())
      ensures status != Busy && old(statuses) <= statuses
      ensures old(waits) < waits && status == waits[|waits| - 1]
      ensures status == Complete <==> AllComplete(waits, |old(waits)|)
      ensures |waits| <= |old(waits)| + 2 && (status == Complete ==> |waits| == |old(waits)| + 2)
      ensures AllComplete(statuses, |old(statuses)|) ==> status == Complete
    {
      hide SetBits, ClearBits, HasBits;
      SetThenClear(cr, CR_PG);
      LockIsKept(cr, CR_PG);
      LockIsNotSet(cr, CR_PG);
      ModesAreOn(cr, CR_PG, CR_PG);
      status := WaitForLastOperation(ER_PRG_TIMEOUT);
      if status == Complete {
        cr := SetBits(cr, CR_PG);
        WriteHalf(i, data);
        status := WaitForLastOperation(ER_PRG_TIMEOUT);
        cr := ClearBits(cr, CR_PG);
      }
    }
  }
}
