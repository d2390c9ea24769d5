/** The table of open files (nabud/stext.c): a list kept sorted by slot number. */
module SlotTable {
  import opened Options

  const ANY_SLOT := 0xff
  const SLOTS := 255

  datatype Entry = Entry(slot: nat, file: int)

  datatype Error = Success | EMFILE | EBUSY

  // ----- The table as a value -----

  /** Strictly increasing slot numbers below 255. */
  predicate Sorted(files: seq<Entry>) {
    files == [] ||
    (files[0].slot < SLOTS && (|files| > 1 ==> files[0].slot < files[1].slot) && Sorted(files[1..]))
  }

  predicate Taken(files: seq<Entry>, slot: nat) {
    files != [] && (files[0].slot == slot || Taken(files[1..], slot))
  }

  /** The list, read as a partial map. */
  function Lookup(files: seq<Entry>, slot: nat): Option<int> {
    if files == [] then None else if files[0].slot == slot then Some(files[0].file) else Lookup(files[1..], slot)
  }

  /** The lowest slot >= `slot` not in a sorted list that holds none below it. */
  function FreeFrom(files: seq<Entry>, slot: nat): nat
    decreases |files|
  {
    if files == [] || slot < files[0].slot then slot else FreeFrom(files[1..], files[0].slot + 1)
  }

  function Placed(files: seq<Entry>, e: Entry): (r: seq<Entry>)
    ensures r != []
  {
    if files == [] || e.slot < files[0].slot then [e] + files else [files[0]] + Placed(files[1..], e)
  }

  /** The slot a request gets, or why it gets none. */
  function Choose(files: seq<Entry>, req: nat): (Error, nat) {
    if req == ANY_SLOT then
      var slot := FreeFrom(files, 0);
      if slot >= SLOTS then (EMFILE, 0) else (Success, slot)
    else if Taken(files, req) then (EBUSY, 0)
    else (Success, req)
  }

  function Opened(files: seq<Entry>, req: nat, file: int): seq<Entry> {
    var (e, slot) := Choose(files, req);
    if e == Success then Placed(files, Entry(slot, file)) else files
  }

  function Closed(files: seq<Entry>, slot: nat): seq<Entry> {
    if files == [] then [] else if files[0].slot == slot then files[1..] else [files[0]] + Closed(files[1..], slot)
  }

  // ----- What the values mean -----

  /** Nothing in a sorted list lies below its head: what lets a scan stop early. */
  lemma {:induction false} BelowHead(files: seq<Entry>, slot: nat)
    requires Sorted(files) && (files == [] || slot < files[0].slot)
    ensures !Taken(files, slot) && Lookup(files, slot) == None
  {
    if files != [] {
      BelowHead(files[1..], slot);
    }
  }

  lemma SortedCons(e: Entry, files: seq<Entry>)
    requires e.slot < SLOTS && Sorted(files) && (files != [] ==> e.slot < files[0].slot)
    ensures Sorted([e] + files)
  {
    assert ([e] + files)[1..] == files;
  }

  lemma TakenCons(e: Entry, files: seq<Entry>, slot: nat)
    ensures Lookup([e] + files, slot) == if e.slot == slot then Some(e.file) else Lookup(files, slot)
    ensures Taken([e] + files, slot) == (e.slot == slot || Taken(files, slot))
  {
    assert ([e] + files)[1..] == files;
  }

  /** Placing an entry in a free slot keeps the order; the map gains exactly that entry. */
  lemma {:induction false} PlacedIsInsertion(files: seq<Entry>, e: Entry, slot: nat)
    requires Sorted(files) && e.slot < SLOTS && !Taken(files, e.slot)
    ensures Sorted(Placed(files, e)) && |Placed(files, e)| == |files| + 1
    ensures Placed(files, e)[0].slot == e.slot || (files != [] && Placed(files, e)[0] == files[0])
    ensures Lookup(Placed(files, e), slot) == if slot == e.slot then Some(e.file) else Lookup(files, slot)
  {
    if files == [] || e.slot < files[0].slot {
      SortedCons(e, files);
      TakenCons(e, files, slot);
    } else {
      PlacedIsInsertion(files[1..], e, slot);
      SortedCons(files[0], Placed(files[1..], e));
      TakenCons(files[0], Placed(files[1..], e), slot);
    }
  }

  /** FreeFrom finds the lowest slot at or above `slot` that no entry has. */
  lemma {:induction false} FreeFromIsLowest(files: seq<Entry>, slot: nat, s: nat)
    requires Sorted(files) && slot <= SLOTS && (files != [] ==> slot <= files[0].slot)
    ensures slot <= FreeFrom(files, slot) <= SLOTS
    ensures !Taken(files, FreeFrom(files, slot))
    ensures slot <= s < FreeFrom(files, slot) ==> Taken(files, s)
    decreases |files|
  {
    if files == [] || slot < files[0].slot {
      BelowHead(files, slot);
    } else {
      FreeFromIsLowest(files[1..], slot + 1, s);
    }
  }

  ghost predicate AllBelowTaken(files: seq<Entry>, bound: nat) { forall s :: 0 <= s < bound ==> Taken(files, s) }

  /** An open takes the lowest free slot, or the one asked for; EMFILE means all 255 are used,
      EBUSY that the one asked for is; a success changes the map in exactly that slot, a failure
      changes nothing. */
  lemma OpenedExactly(files: seq<Entry>, req: nat, file: int)
    requires Sorted(files) && req <= ANY_SLOT
    ensures var (e, slot) := Choose(files, req); var files' := Opened(files, req, file);
      && Sorted(files')
      && (e == EMFILE <==> req == ANY_SLOT && AllBelowTaken(files, SLOTS))
      && (e == EBUSY <==> req != ANY_SLOT && Taken(files, req))
      && (e != Success ==> files' == files)
      && (e == Success ==>
            && slot < SLOTS && !Taken(files, slot)
            && (if req == ANY_SLOT then AllBelowTaken(files, slot) else slot == req)
            && |files'| == |files| + 1
            && forall s :: Lookup(files', s) == if s == slot then Some(file) else Lookup(files, s))
  {
    var free := FreeFrom(files, 0);
    FreeFromIsLowest(files, 0, 0);
    forall s | 0 <= s < free
      ensures Taken(files, s)
    {
      FreeFromIsLowest(files, 0, s);
    }
    var (e, slot) := Choose(files, req);
    if e == Success {
      PlacedIsInsertion(files, Entry(slot, file), 0);
      forall s
        ensures Lookup(Opened(files, req, file), s) == if s == slot then Some(file) else Lookup(files, s)
      {
        PlacedIsInsertion(files, Entry(slot, file), s);
      }
    }
  }

  /** A close frees exactly its slot. */
  lemma {:induction false} ClosedExactly(files: seq<Entry>, slot: nat, s: nat)
    requires Sorted(files)
    ensures Sorted(Closed(files, slot))
    ensures Closed(files, slot) == [] || (files != [] && Closed(files, slot)[0].slot >= files[0].slot)
    ensures Lookup(Closed(files, slot), s) == if s == slot then None else Lookup(files, s)
  {
    if files != [] {
      if files[0].slot == slot {
        if s == slot {
          BelowHead(files[1..], slot);
        }
      } else {
        ClosedExactly(files[1..], slot, s);
        SortedCons(files[0], Closed(files[1..], slot));
        TakenCons(files[0], Closed(files[1..], slot), s);
      }
    }
  }

  datatype Op = Open(req: nat, file: int) | Close(slot: nat)

  function Run(files: seq<Entry>, ops: seq<Op>): seq<Entry>
    decreases |ops|
  {
    if ops == [] then files
    else match ops[0]
      case Open(req, file) => Run(Opened(files, req, file), ops[1..])
      case Close(slot) => Run(Closed(files, slot), ops[1..])
  }

  /** Every run of opens and closes keeps the list strictly sorted within 0..254. */
  lemma {:induction false} RunKeepsSorted(files: seq<Entry>, ops: seq<Op>)
    requires Sorted(files) && forall o :: o in ops && o.Open? ==> o.req <= ANY_SLOT
    ensures Sorted(Run(files, ops))
    decreases |ops|
  {
    if ops != [] {
      match ops[0]
      case Open(req, file) =>
        OpenedExactly(files, req, file);
        RunKeepsSorted(Opened(files, req, file), ops[1..]);
      case Close(slot) =>
        ClosedExactly(files, slot, slot);
        RunKeepsSorted(Closed(files, slot), ops[1..]);
    }
  }

  // ----- The table object -----

  lemma {:induction false} SuffixSorted(files: seq<Entry>, i: nat)
    requires Sorted(files) && i <= |files|
    ensures Sorted(files[i..])
    decreases i
  {
    if i == 0 {
      assert files[0..] == files;
    } else {
      SuffixSorted(files[1..], i - 1);
      assert files[1..][i - 1..] == files[i..];
    }
  }

  class Table {
    var files: seq<Entry>

    ghost predicate Valid()
      reads this
    {
      Sorted(files)
    }

    constructor ()
      ensures Valid() && files == []
    {
      files := [];
    }

    /** The scan of stext_file_insert for the lowest free slot; `i` is where to link. */
    method ScanFree() returns (i: nat, slot: nat)
      requires Valid()
      ensures slot == FreeFrom(files, 0) && i <= |files|
      ensures slot < SLOTS ==> forall e: Entry :: e.slot == slot ==> Placed(files, e) == files[..i] + [e] + files[i..]
    {
      i, slot := 0, 0;
      FreeFromIsLowest(files, 0, 0);
      while i < |files| && slot == files[i].slot
        invariant 0 <= i <= |files| && slot <= SLOTS
        invariant i < |files| ==> slot <= files[i].slot
        invariant forall j :: 0 <= j < i ==> files[j].slot < slot
        invariant FreeFrom(files[i..], slot) == FreeFrom(files, 0)
      {
        SuffixSorted(files, i);
        assert files[i..][1..] == files[i + 1..];
        slot := files[i].slot + 1;
        i := i + 1;
      }
      forall e: Entry | e.slot == slot
        ensures slot < SLOTS ==> Placed(files, e) == files[..i] + [e] + files[i..]
      {
        PlacedAt(files, e, i);
      }
    }

    /** The scan for a specific slot. */
    method ScanFor(slot: nat) returns (i: nat, taken: bool)
      requires Valid()
      ensures taken == Taken(files, slot) && i <= |files|
      ensures !taken ==> forall e: Entry :: e.slot == slot ==> Placed(files, e) == files[..i] + [e] + files[i..]
    {
      i := 0;
      while i < |files| && slot > files[i].slot
        invariant 0 <= i <= |files|
        invariant forall j :: 0 <= j < i ==> files[j].slot < slot
        invariant Taken(files[i..], slot) == Taken(files, slot)
      {
        assert files[i..][1..] == files[i + 1..];
        i := i + 1;
      }
      taken := i < |files| && slot == files[i].slot;
      SuffixSorted(files, i);
      if !taken {
        BelowHead(files[i..], slot);
        forall e: Entry | e.slot == slot
          ensures Placed(files, e) == files[..i] + [e] + files[i..]
        {
          PlacedAt(files, e, i);
        }
      }
    }

    /** stext_file_insert: a scan, then a link operation. */
    method Insert(reqslot: nat, file: int) returns (e: Error, slot: nat)
      requires Valid() && reqslot <= ANY_SLOT
      modifies this
      ensures Valid()
      ensures (e, slot) == Choose(old(files), reqslot)
      ensures files == Opened(old(files), reqslot, file)
    {
      OpenedExactly(files, reqslot, file);
      FreeFromIsLowest(files, 0, 0);
      var i;
      if reqslot == ANY_SLOT {
        i, slot := ScanFree();
        if slot == ANY_SLOT {
          return EMFILE, 0;
        }
      } else {
        var taken;
        slot := reqslot;
        i, taken := ScanFor(slot);
        if taken {
          return EBUSY, 0;
        }
      }
      assert Placed(files, Entry(slot, file)) == files[..i] + [Entry(slot, file)] + files[i..];
      files := files[..i] + [Entry(slot, file)] + files[i..];
      e := Success;
    }

    /** stext_file_find: stops early because the list is sorted. */
    method Find(slot: nat) returns (r: Option<int>)
      requires Valid() && slot <= ANY_SLOT
      ensures r == if slot == ANY_SLOT then None else Lookup(files, slot)
    {
      if slot == ANY_SLOT {
        return None;
      }
      var i := 0;
      assert files[0..] == files;
      while i < |files|
        invariant 0 <= i <= |files|
        invariant Lookup(files[i..], slot) == Lookup(files, slot)
      {
        if files[i].slot > slot {
          SuffixSorted(files, i);
          BelowHead(files[i..], slot);
          break;
        }
        if files[i].slot == slot {
          return Some(files[i].file);
        }
        assert files[i..][1..] == files[i + 1..];
        i := i + 1;
      }
      return None;
    }

    /** stext_file_close of the file in `slot`. */
    method Close(slot: nat)
      requires Valid()
      modifies this
      ensures Valid() && files == Closed(old(files), slot)
    {
      ClosedExactly(files, slot, slot);
      var i := 0;
      while i < |files| && files[i].slot != slot
        invariant 0 <= i <= |files|
        invariant forall j :: 0 <= j < i ==> files[j].slot != slot
      {
        i := i + 1;
      }
      ClosedAt(files, slot, i);
      if i < |files| {
        files := files[..i] + files[i + 1..];
      }
    }
  }

  lemma {:induction false} PlacedAt(files: seq<Entry>, e: Entry, i: nat)
    requires i <= |files|
    requires forall j :: 0 <= j < i ==> files[j].slot < e.slot
    requires i < |files| ==> e.slot < files[i].slot
    ensures Placed(files, e) == files[..i] + [e] + files[i..]
    decreases i
  {
    if i == 0 {
      assert files[..0] + [e] + files[0..] == [e] + files;
    } else {
      PlacedAt(files[1..], e, i - 1);
      assert files[..i] == [files[0]] + files[1..][..i - 1] && files[1..][i - 1..] == files[i..];
    }
  }

  lemma {:induction false} ClosedAt(files: seq<Entry>, slot: nat, i: nat)
    requires i <= |files| && (i < |files| ==> files[i].slot == slot)
    requires forall j :: 0 <= j < i ==> files[j].slot != slot
    ensures Closed(files, slot) == if i < |files| then files[..i] + files[i + 1..] else files
    decreases i
  {
    if i > 0 {
      ClosedAt(files[1..], slot, i - 1);
      assert files == [files[0]] + files[1..];
      if i < |files| {
        assert files[..i] + files[i + 1..] == [files[0]] + (files[1..][..i - 1] + files[1..][i..]);
      }
    }
  }
}
