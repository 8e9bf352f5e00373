/**
 * The wardrobe item list held by WardrobeProvider. Each updater passed to the
 * list's state setter (addItem, deleteItem, incrementItem, decrementItem) is a
 * function from the previous list to the next one; the React context, the
 * hook and the persistence effects around it are not modelled.
 */
module WardrobeContext {
  import opened JsString

  datatype Option<T> = None | Some(value: T)

  /** One record of the list: an item type and its three counts. Counts come
      from JSON that may have been edited, so nothing forces them to be
      non-negative or consistent. */
  datatype Item = Item(name: string, total: int, available: int, inLaundry: int)

  /** The record addItem appends for a (trimmed) name. */
  function NewItem(name: string): Item {
    Item(name, 0, 0, 0)
  }

  /** The intended count invariant of one record. */
  predicate Consistent(it: Item) {
    it.total == it.available + it.inLaundry
    && it.total >= 0 && it.available >= 0 && it.inLaundry >= 0
  }

  predicate AllConsistent(items: seq<Item>) {
    forall j :: 0 <= j < |items| ==> Consistent(items[j])
  }

  /** No record has anything in the laundry. */
  predicate NoneInLaundry(items: seq<Item>) {
    forall j :: 0 <= j < |items| ==> items[j].inLaundry == 0
  }

  /** The guard of addItem fails: the argument is falsy (null, undefined, 0,
      false, NaN) or trims to the empty string. The empty string is also
      falsy, so it fails here either way. */
  predicate IsBlank(input: Option<string>) {
    input.None? || Trim(input.value) == []
  }

  function Max(a: int, b: int): int {
    if a >= b then a else b
  }

  /** addItem: appends a zero-count record named with the trimmed input,
      unless the input is blank. There is no check against the names already
      in the list. */
  function AddItem(items: seq<Item>, input: Option<string>): (r: seq<Item>)
    ensures IsBlank(input) ==> r == items
    ensures !IsBlank(input) ==>
              |r| == |items| + 1 && r[..|items|] == items
              && r[|items|] == NewItem(Trim(input.value))
    ensures !IsBlank(input) ==>
              var name := r[|items|].name;
              name != [] && !IsWhitespace(name[0]) && !IsWhitespace(name[|name| - 1])
    ensures AllConsistent(items) ==> AllConsistent(r)
    ensures NoneInLaundry(items) ==> NoneInLaundry(r)
  {
    if input.Some? && Trim(input.value) != [] then
      items + [NewItem(Trim(input.value))]
    else
      items
  }

  /** prev.filter((_, i) => i !== index), written over the list with index
      counted down as the walk moves right. */
  function DeleteItem(items: seq<Item>, index: int): (r: seq<Item>)
    ensures 0 <= index < |items| ==> r == items[..index] + items[index + 1..]
    ensures !(0 <= index < |items|) ==> r == items
  {
    if items == [] then []
    else (if index == 0 then [] else [items[0]]) + DeleteItem(items[1..], index - 1)
  }

  /** The record after one increment: one more in total and one more available. */
  function Incremented(it: Item): Item {
    it.(total := it.total + 1, available := it.available + 1)
  }

  /** The record after one decrement of a record with total > 0. */
  function Decremented(it: Item): Item {
    it.(total := it.total - 1, available := if it.available > 0 then it.available - 1 else 0)
  }

  /** incrementItem: prev.map over the list, bumping only the record at index. */
  function IncrementItem(items: seq<Item>, index: int): (r: seq<Item>)
    ensures |r| == |items|
    ensures forall j :: 0 <= j < |r| && j != index ==> r[j] == items[j]
    ensures 0 <= index < |items| ==>
              r[index].name == items[index].name
              && r[index].total == items[index].total + 1
              && r[index].available == items[index].available + 1
              && r[index].inLaundry == items[index].inLaundry
  {
    seq(|items|, j requires 0 <= j < |items| =>
      if j == index then Incremented(items[j]) else items[j])
  }

  /** decrementItem: prev.map over the list, lowering only the record at index
      and only when its total is positive. available is floored at 0 and
      inLaundry is never touched. */
  function DecrementItem(items: seq<Item>, index: int): (r: seq<Item>)
    ensures |r| == |items|
    ensures forall j :: 0 <= j < |r| && j != index ==> r[j] == items[j]
    ensures !(0 <= index < |items|) || items[index].total <= 0 ==> r == items
    ensures 0 <= index < |items| && items[index].total > 0 ==>
              r[index].name == items[index].name
              && r[index].total == items[index].total - 1
              && r[index].available == Max(items[index].available - 1, 0)
              && r[index].inLaundry == items[index].inLaundry
              && r[index].total >= 0 && r[index].available >= 0
  {
    seq(|items|, j requires 0 <= j < |items| =>
      if j == index && items[j].total > 0 then Decremented(items[j]) else items[j])
  }

  /** Adding a name that is already present, exactly the same, still appends
      a second record: the list grows by one and both records are kept. */
  lemma AddIgnoresDuplicates(items: seq<Item>, input: Option<string>, k: int)
    requires !IsBlank(input)
    requires 0 <= k < |items| && items[k].name == Trim(input.value)
    ensures var r := AddItem(items, input);
            |r| == |items| + 1 && r[k] == items[k] && r[|items|].name == items[k].name
  {
  }

  /** Re-adding the stored name of a record appends a record of the same name:
      the name addItem stores is already trimmed. */
  lemma ReAddStoredName(items: seq<Item>, input: Option<string>)
    requires !IsBlank(input)
    ensures var once := AddItem(items, input);
            var twice := AddItem(once, Some(once[|items|].name));
            |twice| == |items| + 2 && twice[|items|].name == twice[|items| + 1].name
  {
  }

  /** A string whose first character is not white space is not blank. */
  lemma NotBlank(s: string)
    requires |s| > 0 && !IsWhitespace(s[0])
    ensures !IsBlank(Some(s))
  {
    TrimEmptyIffAllWhitespace(s);
  }

  /** A string that neither starts nor ends with white space passes the guard
      of addItem and is stored as it is. */
  lemma TrimmedAlready(s: string)
    requires |s| > 0 && !IsWhitespace(s[0]) && !IsWhitespace(s[|s| - 1])
    ensures !IsBlank(Some(s)) && Trim(s) == s
  {
    assert SkipLeading(s, 0) == 0;
    assert SkipTrailing(s, 0, |s|) == |s|;
  }

  /** "Socks" then "socks" gives two records: names are compared in no way. */
  lemma SocksTwice()
    ensures var r := AddItem(AddItem([], Some("Socks")), Some("socks"));
            |r| == 2 && r[0].name == "Socks" && r[1].name == "socks"
  {
    TrimmedAlready("Socks");
    TrimmedAlready("socks");
    var once := AddItem([], Some("Socks"));
    assert |once| == 1 && once[0].name == "Socks";
    var twice := AddItem(once, Some("socks"));
    assert twice[..1] == once;
    assert twice[0] == once[0];
  }

  /** Taking x out of the middle of a sequence takes one x out of its multiset. */
  lemma SplitMultiset<T>(pre: seq<T>, x: T, post: seq<T>)
    ensures multiset(pre + [x] + post) == multiset(pre + post) + multiset{x}
  {
  }

  /** Deleting keeps the other records, in order, and removes exactly one
      occurrence of the deleted record. */
  lemma DeleteRemovesOne(items: seq<Item>, index: int)
    requires 0 <= index < |items|
    ensures multiset(DeleteItem(items, index)) + multiset{items[index]} == multiset(items)
  {
    var pre, post := items[..index], items[index + 1..];
    assert items == pre + [items[index]] + post;
    SplitMultiset(pre, items[index], post);
  }

  /** Deleting preserves the invariant and keeps the laundry empty. */
  lemma DeletePreserves(items: seq<Item>, index: int)
    ensures AllConsistent(items) ==> AllConsistent(DeleteItem(items, index))
    ensures NoneInLaundry(items) ==> NoneInLaundry(DeleteItem(items, index))
  {
  }

  /** Incrementing preserves the invariant and keeps the laundry empty. */
  lemma IncrementPreserves(items: seq<Item>, index: int)
    ensures AllConsistent(items) ==> AllConsistent(IncrementItem(items, index))
    ensures NoneInLaundry(items) ==> NoneInLaundry(IncrementItem(items, index))
  {
  }

  /** Decrementing keeps the laundry empty, and preserves the invariant when
      the record has something available or nothing in the laundry. */
  lemma DecrementPreserves(items: seq<Item>, index: int)
    ensures AllConsistent(items)
            && (!(0 <= index < |items|) || items[index].available > 0 || items[index].inLaundry == 0)
            ==> AllConsistent(DecrementItem(items, index))
    ensures NoneInLaundry(items) ==> NoneInLaundry(DecrementItem(items, index))
  {
  }

  /** Decrement undoes increment on a record whose total and available counts
      are not negative (an out-of-range index leaves both as no-ops). */
  lemma DecrementUndoesIncrement(items: seq<Item>, index: int)
    requires 0 <= index < |items| ==> items[index].total >= 0 && items[index].available >= 0
    ensures DecrementItem(IncrementItem(items, index), index) == items
  {
  }

  /** The invariant does not survive decrementItem in general: a record with
      one unit, that unit in the laundry, drops to total 0 while still
      counting one in the laundry. */
  lemma DecrementFromLaundryBreaksInvariant(name: string)
    ensures AllConsistent([Item(name, 1, 0, 1)])
    ensures DecrementItem([Item(name, 1, 0, 1)], 0) == [Item(name, 0, 0, 1)]
    ensures !AllConsistent(DecrementItem([Item(name, 1, 0, 1)], 0))
  {
  }

  /** On a consistent list, decrementing an in-range record keeps every
      record consistent exactly when that record has something available or
      nothing in the laundry. */
  lemma {:induction false} DecrementKeepsInvariantIff(items: seq<Item>, index: int)
    requires AllConsistent(items) && 0 <= index < |items|
    ensures AllConsistent(DecrementItem(items, index))
            <==> items[index].available > 0 || items[index].inLaundry == 0
  {
    if items[index].available == 0 && items[index].inLaundry > 0 {
      assert !Consistent(DecrementItem(items, index)[index]);
    }
  }

  /** n taps of incrementItem on one index. */
  function IncrementTimes(items: seq<Item>, index: int, n: nat): (r: seq<Item>)
    ensures |r| == |items|
    ensures forall j :: 0 <= j < |r| && j != index ==> r[j] == items[j]
    ensures 0 <= index < |items| ==>
              r[index] == items[index].(total := items[index].total + n,
                                        available := items[index].available + n)
  {
    if n == 0 then items else IncrementItem(IncrementTimes(items, index, n - 1), index)
  }

  /** n taps of decrementItem on one index. */
  function DecrementTimes(items: seq<Item>, index: int, n: nat): (r: seq<Item>)
    ensures |r| == |items|
    ensures forall j :: 0 <= j < |r| && j != index ==> r[j] == items[j]
    ensures 0 <= index < |items| && items[index].total >= 0 && items[index].available >= 0 ==>
              var k := if n <= items[index].total then n else items[index].total;
              r[index] == items[index].(total := items[index].total - k,
                                        available := Max(items[index].available - k, 0))
    decreases n
  {
    if n == 0 then items else DecrementTimes(DecrementItem(items, index), index, n - 1)
  }

  /** n increments followed by n decrements of the same record restore the
      list, as long as that record's total and available counts are not
      negative. */
  lemma {:induction false} IncrementsThenDecrementsRestore(items: seq<Item>, index: int, n: nat)
    requires 0 <= index < |items| ==> items[index].total >= 0 && items[index].available >= 0
    ensures DecrementTimes(IncrementTimes(items, index, n), index, n) == items
  {
    if n > 0 {
      var mid := IncrementTimes(items, index, n - 1);
      var up := IncrementItem(mid, index);
      assert IncrementTimes(items, index, n) == up;
      DecrementUndoesIncrement(mid, index);
      assert DecrementTimes(up, index, n) == DecrementTimes(mid, index, n - 1);
      IncrementsThenDecrementsRestore(items, index, n - 1);
    }
  }

  /** A freshly added record, incremented n times and then decremented n
      times, is back at all-zero counts. */
  lemma FreshRecordRoundTrip(items: seq<Item>, input: Option<string>, n: nat)
    requires !IsBlank(input)
    ensures var added := AddItem(items, input);
            DecrementTimes(IncrementTimes(added, |items|, n), |items|, n)[|items|]
              == NewItem(Trim(input.value))
  {
    IncrementsThenDecrementsRestore(AddItem(items, input), |items|, n);
  }

  /** The operations the wardrobe screen can trigger. */
  datatype Op = Add(input: Option<string>) | Delete(index: int)
              | Increment(index: int) | Decrement(index: int)

  function Apply(items: seq<Item>, op: Op): seq<Item> {
    match op
    case Add(input) => AddItem(items, input)
    case Delete(index) => DeleteItem(items, index)
    case Increment(index) => IncrementItem(items, index)
    case Decrement(index) => DecrementItem(items, index)
  }

  /** The list after applying ops in order. */
  function Run(items: seq<Item>, ops: seq<Op>): seq<Item>
    decreases |ops|
  {
    if ops == [] then items else Run(Apply(items, ops[0]), ops[1..])
  }

  /** Since none of the operations raises inLaundry, from a consistent list
      with nothing in the laundry (the empty initial list in particular)
      every sequence of operations keeps every record consistent. */
  lemma {:induction false} RunPreservesInvariant(items: seq<Item>, ops: seq<Op>)
    requires AllConsistent(items) && NoneInLaundry(items)
    ensures AllConsistent(Run(items, ops)) && NoneInLaundry(Run(items, ops))
    decreases |ops|
  {
    if ops != [] {
      var next := Apply(items, ops[0]);
      match ops[0] {
        case Add(_) =>
        case Delete(index) => DeletePreserves(items, index);
        case Increment(index) => IncrementPreserves(items, index);
        case Decrement(index) => DecrementPreserves(items, index);
      }
      assert AllConsistent(next) && NoneInLaundry(next);
      RunPreservesInvariant(next, ops[1..]);
    }
  }
}
