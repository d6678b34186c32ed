/**
 The database of db.c: its items, and saving them to and restoring them from a flash page with a
 checksum.
 */
module Storage {
  import opened Bytes
  import opened Flash

  const NUM_INTS: nat := 42
  const WORDS: nat := 43
  const MODULUS: nat := 0x1_0000_0000

  /** The bits of an int32 read as an unsigned word, and back. */
  function AsWord(x: int32): word { if x < 0 then x + MODULUS else x }

  function AsInt(w: word): int32 { if w >= 0x8000_0000 then w - MODULUS else w }

  function Sum(ws: seq<word>): nat {
    if |ws| == 0 then 0 else Sum(ws[..|ws| - 1]) + ws[|ws| - 1]
  }

  /** The sum of 32-bit words in a 32-bit accumulator. */
  function Checksum(ws: seq<word>): word { Sum(ws) % MODULUS }

  /** Addition of uint32_t. */
  function Plus(a: word, b: word): word { (a + b) % MODULUS }

  /** What dbRestore asks of the words on the page. */
  predicate Accepts(ws: seq<word>)
    requires |ws| == WORDS
  {
    Checksum(ws[..NUM_INTS]) == ws[NUM_INTS]
  }

  const FLASH_DB_BASE: nat := 0x0803_C000

  /** The page is that of the database, and large enough for it. */
  predicate IsDatabasePage(flash: Device) { flash.base == FLASH_DB_BASE && 2 * WORDS <= flash.page.Length }

  /** The first n words of a page. */
  ghost function PageWords(flash: Device, n: nat): (ws: seq<word>)
    requires 2 * n <= flash.page.Length
    reads flash.page
    ensures |ws| == n && forall i :: 0 <= i < n ==> ws[i] == flash.WordAt(i)
  {
    seq(n, i requires 0 <= i < n reads flash.page requires 2 * n <= flash.page.Length => flash.WordAt(i))
  }

  class Database {
    const ints: array<int32>
    var checksum: word

    constructor ()
      ensures fresh(ints) && ints.Length == NUM_INTS && checksum == 0
    {
      ints := new int32[NUM_INTS](_ => 0);
      checksum := 0;
    }

    ghost predicate Valid() { ints.Length == NUM_INTS }

    /** The structure as the words that it is saved in. */
    function Words(): (ws: seq<word>)
      requires Valid()
      reads this, ints
      ensures |ws| == WORDS && ws[NUM_INTS] == checksum && forall i :: 0 <= i < NUM_INTS ==> ws[i] == AsWord(ints[i])
    {
      seq(WORDS, i requires 0 <= i < WORDS reads this, ints requires Valid() =>
        if i < NUM_INTS then AsWord(ints[i]) else checksum)
    }

    /** dbSetInt: 1, and no change, for an index outside the array. */
    method SetInt(index: int, val: int32) returns (ret: nat)
      requires Valid()
      modifies ints
      ensures ret == if 0 <= index < NUM_INTS then 0 else 1
      ensures ints[..] == if ret == 0 then old(ints[..])[index := val] else old(ints[..])
    {
      ret := 0;
      if index >= 0 && index < NUM_INTS {
        ints[index] := val;
      } else {
        ret := 1;
      }
    }

    /** dbGetInt: zero for an index outside the array. */
    method GetInt(index: int) returns (val: int32)
      requires Valid()
      ensures val == if 0 <= index < NUM_INTS then ints[index] else 0
    {
      if index >= 0 && index < NUM_INTS {
        val := ints[index];
      } else {
        val := 0;
      }
    }

    // ---------- saving ----------

    /** data[i] of the structure. */
    function Data(i: nat): (w: word)
      requires Valid() && i < WORDS
      reads this, ints
      ensures w == Words()[i]
    {
      if i < NUM_INTS then AsWord(ints[i]) else checksum
    }

    /** The checksum loop of dbSave. */
    method ComputeChecksum()
      requires Valid()
      modifies this`checksum
      ensures checksum == Checksum(Words()[..NUM_INTS]) && Words()[..NUM_INTS] == old(Words())[..NUM_INTS]
    {
      hide Checksum, Plus;
      ghost var ws := Words()[..NUM_INTS];
      checksum := 0;
      var i := 0;
      ChecksumNext(ws, 0);
      while i < NUM_INTS
        invariant i <= NUM_INTS && checksum == Checksum(ws[..i]) && Words()[..NUM_INTS] == ws
      {
        ChecksumNext(ws, i);
        assert ws[i] == Words()[i];
        checksum := Plus(checksum, Data(i));
        i := i + 1;
      }
      assert ws[..i] == ws;
    }

    /** The programming loop of dbSave, for the first n words: each is read back before the next. */
    method ProgramWords(flash: Device, n: nat) returns (r: nat)
      requires Valid() && n <= WORDS && 2 * WORDS <= flash.page.Length
      modifies flash, flash.page
      ensures r in {0, 2, 3} && flash.Locked() == old(flash.Locked())
      ensures r == 0 ==> PageWords(flash, n) == Words()[..n]
      ensures r == 0 ==> forall k :: 2 * n <= k < flash.page.Length ==> flash.page[k] == old(flash.page[k])
      ensures r == 2 ==> exists i :: 0 <= i < n && flash.WordAt(i) != Words()[i]
      ensures flash.sound && old(flash.ErasedFrom(0)) && !old(flash.Locked()) ==> r != 2
      ensures old(flash.waits) <= flash.waits && old(flash.statuses) <= flash.statuses
      ensures r == 3 <==> !AllComplete(flash.waits, |old(flash.waits)|)
      ensures AllComplete(flash.statuses, |old(flash.statuses)|) ==> r != 3
      ensures r == 0 ==> |flash.waits| == |old(flash.waits)| + 3 * n
      ensures r == 3 ==> |flash.waits| > |old(flash.waits)|
    {
      var i := 0;
      while i < n
        invariant i <= n && flash.Locked() == old(flash.Locked())
        invariant forall j :: 0 <= j < i ==> flash.WordAt(j) == Words()[j]
        invariant forall k :: 2 * i <= k < flash.page.Length ==> flash.page[k] == old(flash.page[k])
        invariant old(flash.waits) <= flash.waits && old(flash.statuses) <= flash.statuses
        invariant AllComplete(flash.waits, |old(flash.waits)|) && |flash.waits| == |old(flash.waits)| + 3 * i
      {
        var status := flash.ProgramWord(i, Data(i));
        if status == Complete {
          if flash.WordAt(i) != Data(i) {
            return 2;
          }
          i := i + 1;
        } else {
          return 3;
        }
      }
      return 0;
    }

    /**
     dbSave: when it returns 0 the page holds the structure, whatever the device does; in any case the
     flash is locked again and no item has changed. A sound device is never caught by the read-back: there a save
     succeeds exactly when every wait of the call has ended complete, and so whenever every poll has.
     */
    method Save(flash: Device) returns (r: nat)
      requires Valid() && IsDatabasePage(flash)
      modifies this`checksum, flash, flash.page
      ensures r in {0, 1, 2, 3} && flash.Locked()
      ensures Words()[..NUM_INTS] == old(Words())[..NUM_INTS]
      ensures r == 0 ==> PageWords(flash, WORDS) == Words() && Accepts(Words())
      ensures r == 2 ==> PageWords(flash, WORDS) != Words() && !flash.sound
      ensures old(flash.waits) <= flash.waits && old(flash.statuses) <= flash.statuses
      ensures r in {1, 3} <==> !AllComplete(flash.waits, |old(flash.waits)|)
      ensures r == 1 <==> !AllComplete(flash.waits, |old(flash.waits)|) && |flash.waits| <= |old(flash.waits)| + 2
      ensures r == 0 ==> |flash.waits| == |old(flash.waits)| + 2 + 3 * WORDS
      ensures flash.sound ==> (r == 0 <==> AllComplete(flash.waits, |old(flash.waits)|))
      ensures AllComplete(flash.statuses, |old(flash.statuses)|) ==> r in {0, 2} && (flash.sound ==> r == 0)
    {
      flash.Unlock();
      var status := flash.ErasePage(FLASH_DB_BASE);
      if status != Complete {
        flash.Lock();
        return 1;
      }
      ComputeChecksum();
      r := ProgramWords(flash, WORDS);
      flash.Lock();
      assert Words()[..WORDS] == Words();
    }

    /** dbSave on a sound device that loses power before it comes to word n, or between the two halves of that word. */
    method SaveInterrupted(flash: Device, n: nat, between: bool) returns (r: nat)
      requires Valid() && n <= WORDS && (between ==> n < WORDS) && IsDatabasePage(flash) && flash.sound
      modifies this`checksum, flash, flash.page
      ensures Words()[..NUM_INTS] == old(Words())[..NUM_INTS] && (r == 1 || Accepts(Words()))
      ensures old(flash.statuses) <= flash.statuses
      ensures AllComplete(flash.statuses, |old(flash.statuses)|) ==> r == 0
      ensures r == 0 ==>
        PageWords(flash, WORDS) == if between then HalfInterrupted(Words(), n) else Interrupted(Words(), n)
    {
      flash.Unlock();
      var status := flash.ErasePage(FLASH_DB_BASE);
      if status != Complete {
        return 1;
      }
      ComputeChecksum();
      r := ProgramWords(flash, n);
      if r == 0 {
        ghost var ws := PageWords(flash, WORDS);
        assert forall i :: 0 <= i < n ==> ws[i] == PageWords(flash, n)[i];
        if between {
          status := flash.ProgramLowHalf(n, Data(n));
          if status != Complete {
            return 3;
          }
          ghost var now := PageWords(flash, WORDS);
          assert forall i :: 0 <= i < WORDS && i != n ==> now[i] == ws[i];
        }
      }
    }

    // ---------- restoring ----------

    /** dbRestore: the page is taken over, checksum and all, exactly when its checksum is right. */
    method Restore(flash: Device) returns (r: nat)
      requires Valid() && 2 * WORDS <= flash.page.Length
      modifies this`checksum, ints
      ensures r == 0 <==> Accepts(PageWords(flash, WORDS))
      ensures r == 0 ==> Words() == PageWords(flash, WORDS)
      ensures r != 0 ==> r == 1 && Words() == old(Words())
    {
      hide Accepts;
      var sum := SumPage(flash);
      if sum != flash.WordAt(NUM_INTS) {
        NotAccepted(PageWords(flash, WORDS), sum);
        return 1;
      }
      NotAccepted(PageWords(flash, WORDS), sum);
      CopyPage(flash);
      assert Words() == PageWords(flash, WORDS);
      return 0;
    }

    /** memcpy of the page over the structure. */
    method CopyPage(flash: Device)
      requires Valid() && 2 * WORDS <= flash.page.Length
      modifies this`checksum, ints
      ensures forall i :: 0 <= i < WORDS ==> Words()[i] == flash.WordAt(i)
    {
      var j := 0;
      while j < NUM_INTS
        invariant j <= NUM_INTS && forall k :: 0 <= k < j ==> AsWord(ints[k]) == flash.WordAt(k)
        modifies ints
      {
        ints[j] := AsInt(flash.WordAt(j));
        j := j + 1;
      }
      checksum := flash.WordAt(NUM_INTS);
    }
  }

  lemma NotAccepted(ws: seq<word>, sum: word)
    requires |ws| == WORDS && sum == Checksum(ws[..NUM_INTS])
    ensures Accepts(ws) <==> sum == ws[NUM_INTS]
  {
  }

  lemma ChecksumNext(ws: seq<word>, i: nat)
    requires i < |ws|
    ensures Checksum(ws[..i + 1]) == Plus(Checksum(ws[..i]), ws[i]) && Checksum(ws[..0]) == 0
  {
    assert ws[..i + 1][..i] == ws[..i];
  }

  /** The checksum loop of dbRestore. */
  method SumPage(flash: Device) returns (sum: word)
    requires 2 * WORDS <= flash.page.Length
    ensures sum == Checksum(PageWords(flash, WORDS)[..NUM_INTS])
  {
    hide Checksum, WordOf;
    ghost var ws := PageWords(flash, WORDS);
    sum := 0;
    var i := 0;
    ChecksumNext(ws, 0);
    while i < NUM_INTS
      invariant i <= NUM_INTS && sum == Checksum(ws[..i]) && forall k :: 0 <= k < WORDS ==> ws[k] == flash.WordAt(k)
    {
      ChecksumNext(ws, i);
      sum := Plus(sum, flash.WordAt(i));
      i := i + 1;
    }
  }

  /** What a save leaves behind when it is stopped before word n: words that are still erased. */
  function Interrupted(ws: seq<word>, n: nat): (page: seq<word>)
    requires n <= |ws| == WORDS
    ensures |page| == WORDS && page[..n] == ws[..n] && forall i :: n <= i < WORDS ==> page[i] == ERASED_WORD
  {
    seq(WORDS, i requires 0 <= i < WORDS => if i < n then ws[i] else ERASED_WORD)
  }

  /** What it leaves behind when it is stopped between the two halves of word n: the low half is there. */
  function HalfInterrupted(ws: seq<word>, n: nat): (page: seq<word>)
    requires n < |ws| == WORDS
    ensures |page| == WORDS && page[..n] == ws[..n] && page[n] == WordOf(ws[n] % 0x1_0000, ERASED_HALF)
    ensures forall i :: n < i < WORDS ==> page[i] == ERASED_WORD
  {
    Interrupted(ws, n)[n := WordOf(ws[n] % 0x1_0000, ERASED_HALF)]
  }

  /** A saved database comes back identical, into any other and into itself. */
  method SaveAndRestore(flash: Device, db: Database, other: Database) returns (saved: nat, restored: nat)
    requires db.Valid() && other.Valid() && IsDatabasePage(flash)
    modifies db`checksum, other`checksum, other.ints, flash, flash.page
    ensures old(flash.statuses) <= flash.statuses
    ensures flash.sound && AllComplete(flash.statuses, |old(flash.statuses)|) ==> saved == 0
    ensures saved == 0 ==>
      restored == 0 && other.Words() == db.Words() && other.ints[..] == db.ints[..] && db.ints[..] == old(db.ints[..])
  {
    ghost var before := db.Words();
    SameItems(db, before);
    saved := db.Save(flash);
    ghost var ws := db.Words();
    restored := 0;
    if saved != 0 {
      restored := other.Restore(flash);
    } else {
      restored := RestoreSaved(flash, db, other);
      SameItems(db, ws);
      SameItems(other, ws);
      forall i | 0 <= i < NUM_INTS
        ensures other.ints[i] == db.ints[i] == AsInt(before[i])
      {
        assert ws[..NUM_INTS][i] == before[..NUM_INTS][i];
      }
    }
  }

  /**
   Restoring the page of a saved database into another one, or into itself, does not change the one that was saved.
   */
  method RestoreSaved(flash: Device, db: Database, other: Database) returns (r: nat)
    requires db.Valid() && other.Valid() && 2 * WORDS <= flash.page.Length
    requires PageWords(flash, WORDS) == db.Words() && Accepts(db.Words())
    modifies other`checksum, other.ints
    ensures r == 0 && other.Words() == old(db.Words()) && db.Words() == old(db.Words())
  {
    ghost var ws := db.Words();
    r := other.Restore(flash);
    forall i | 0 <= i < WORDS
      ensures db.Words()[i] == ws[i]
    {
      if i < NUM_INTS && db.ints != other.ints {
        assert db.ints[i] == old(db.ints[i]);
      }
      assert other.Words()[i] == ws[i];
    }
  }

  lemma SameItems(db: Database, ws: seq<word>)
    requires db.Valid() && ws == db.Words()
    ensures forall i :: 0 <= i < NUM_INTS ==> db.ints[i] == AsInt(ws[i])
  {
  }

  // ---------- what the checksum tells apart ----------

  lemma {:induction false} SumUpdate(ws: seq<word>, j: nat, v: word)
    requires j < |ws|
    ensures Sum(ws[j := v]) == Sum(ws) - ws[j] + v
  {
    var n := |ws| - 1;
    if j == n {
      assert ws[j := v][..n] == ws[..n];
    } else {
      SumUpdate(ws[..n], j, v);
      assert ws[j := v][..n] == ws[..n][j := v];
    }
  }

  /** A page that differs from an accepted one in exactly one word is rejected. */
  lemma OneChangeIsRejected(ws: seq<word>, j: nat, v: word)
    requires |ws| == WORDS && j < WORDS && Accepts(ws) && v != ws[j]
    ensures !Accepts(ws[j := v])
  {
    var items := ws[..NUM_INTS];
    if j < NUM_INTS {
      SumUpdate(items, j, v);
      assert ws[j := v][..NUM_INTS] == items[j := v];
    } else {
      assert ws[j := v][..NUM_INTS] == items;
    }
  }

  lemma {:induction false} SumErased(ws: seq<word>, n: nat)
    requires n <= |ws| && forall i :: n <= i < |ws| ==> ws[i] == ERASED_WORD
    ensures Sum(ws) == Sum(ws[..n]) + (|ws| - n) * (MODULUS - 1)
  {
    if n < |ws| {
      var m := |ws| - 1;
      SumErased(ws[..m], n);
      assert ws[..m][..n] == ws[..n];
    } else {
      assert ws[..n] == ws;
    }
  }

  /**
   A save that was stopped before word n <= 42 is accepted exactly when the words before it add up to
   41 - n modulo 2^32; a page that is only erased is one of the rejected.
   */
  lemma InterruptedSave(ws: seq<word>, n: nat)
    requires |ws| == WORDS && n <= NUM_INTS
    ensures Accepts(Interrupted(ws, n)) <==> (Sum(ws[..n]) - (41 - n)) % MODULUS == 0
    ensures n == 0 ==> !Accepts(Interrupted(ws, n))
  {
    var page := Interrupted(ws, n);
    var items := page[..NUM_INTS];
    SumErased(items, n);
    assert items[..n] == ws[..n];
  }

  /**
   A save that was stopped between the halves of word n is accepted exactly when the words before it and its low half
   add up to 0x10000 + 40 - n modulo 2^32; and if it was the checksum, exactly when its high half was 0xFFFF anyway.
   */
  lemma HalfInterruptedSave(ws: seq<word>, n: nat)
    requires |ws| == WORDS && n < WORDS && Accepts(ws)
    ensures n < NUM_INTS ==>
      (Accepts(HalfInterrupted(ws, n)) <==> (Sum(ws[..n]) + ws[n] % 0x1_0000 - (0x1_0000 + 40 - n)) % MODULUS == 0)
    ensures n == NUM_INTS ==> (Accepts(HalfInterrupted(ws, n)) <==> ws[n] / 0x1_0000 == 0xFFFF)
  {
    var page := HalfInterrupted(ws, n);
    var items := page[..NUM_INTS];
    if n < NUM_INTS {
      SumErased(items, n + 1);
      assert items[..n + 1][..n] == ws[..n];
      var total, part := Sum(items), Sum(ws[..n]) + ws[n] % 0x1_0000;
      assert total == part + 0xFFFF_0000 + (41 - n) * (MODULUS - 1);
      assert total - ERASED_WORD == part - (0x1_0000 + 40 - n) + (42 - n) * MODULUS - MODULUS;
      SameRest(total, part - (0x1_0000 + 40 - n), 41 - n);
    } else {
      assert items == ws[..NUM_INTS];
    }
  }

  lemma SameRest(total: nat, d: int, k: int)
    requires total - ERASED_WORD == d + k * MODULUS
    ensures total % MODULUS == ERASED_WORD <==> d % MODULUS == 0
  {
  }
}
