/** The abstract value of a Grayscale map: a sequence of entries with pairwise different keys,
    in insertion order. */
module OrderedMapSpec {
  import opened Options
  import opened MapKeys

  datatype Entry<V> = Entry(key: Key, value: V)

  ghost predicate Distinct<V>(es: seq<Entry<V>>) {
    forall i, j :: 0 <= i < j < |es| ==> Canon(es[i].key) != Canon(es[j].key)
  }

  /** The position of the entry whose key equals `key`, or -1. */
  function IndexOf<V>(es: seq<Entry<V>>, key: Key): (r: int)
    ensures -1 <= r < |es|
    ensures r >= 0 ==> Canon(es[r].key) == Canon(key)
    ensures r == -1 ==> forall i :: 0 <= i < |es| ==> Canon(es[i].key) != Canon(key)
  {
    if es == [] then -1
    else if Canon(es[|es| - 1].key) == Canon(key) then |es| - 1
    else IndexOf(es[..|es| - 1], key)
  }

  function Lookup<V>(es: seq<Entry<V>>, key: Key): Option<V> {
    var i := IndexOf(es, key);
    if i < 0 then None else Some(es[i].value)
  }

  /** Updating keeps the entry's place and its stored key; a new key goes to the end. */
  function SetEntry<V>(es: seq<Entry<V>>, key: Key, value: V): seq<Entry<V>> {
    var i := IndexOf(es, key);
    if i < 0 then es + [Entry(key, value)] else es[i := Entry(es[i].key, value)]
  }

  function RemoveEntry<V>(es: seq<Entry<V>>, key: Key): seq<Entry<V>> {
    var i := IndexOf(es, key);
    if i < 0 then es else es[..i] + es[i + 1..]
  }

  lemma IndexOfUnique<V>(es: seq<Entry<V>>, key: Key, i: int)
    requires Distinct(es) && 0 <= i < |es| && Canon(es[i].key) == Canon(key)
    ensures IndexOf(es, key) == i
  {
  }

  lemma SetKeepsDistinct<V>(es: seq<Entry<V>>, key: Key, value: V)
    requires Distinct(es)
    ensures Distinct(SetEntry(es, key, value))
  {
  }

  lemma RemoveKeepsDistinct<V>(es: seq<Entry<V>>, key: Key)
    requires Distinct(es)
    ensures Distinct(RemoveEntry(es, key))
  {
  }

  lemma LookupAfterSet<V>(es: seq<Entry<V>>, key: Key, value: V, probe: Key)
    requires Distinct(es)
    ensures Lookup(SetEntry(es, key, value), probe)
         == if Canon(probe) == Canon(key) then Some(value) else Lookup(es, probe)
  {
    var after := SetEntry(es, key, value);
    SetKeepsDistinct(es, key, value);
    var i := IndexOf(es, probe);
    if Canon(probe) == Canon(key) {
      IndexOfUnique(after, probe, if i < 0 then |es| else i);
    } else if i >= 0 {
      IndexOfUnique(after, probe, i);
    }
  }

  lemma LookupAfterRemove<V>(es: seq<Entry<V>>, key: Key, probe: Key)
    requires Distinct(es)
    ensures Lookup(RemoveEntry(es, key), probe)
         == if Canon(probe) == Canon(key) then None else Lookup(es, probe)
  {
    hide Canon, Distinct, IndexOf, RemoveEntry;
    var after := RemoveEntry(es, key);
    var i, r, m := IndexOf(es, probe), IndexOf(es, key), IndexOf(after, probe);
    if r < 0 {
      NothingRemoved(es, key);
    } else {
      RemoveKeepsDistinct(es, key);
      if m >= 0 {
        LeftAt(es, key, m);
      }
      if Canon(probe) != Canon(key) && i >= 0 {
        var place := if i < r then i else i - 1;
        LeftAt(es, key, place);
        IndexOfUnique(after, probe, place);
      }
    }
  }

  lemma NothingRemoved<V>(es: seq<Entry<V>>, key: Key)
    requires IndexOf(es, key) < 0
    ensures RemoveEntry(es, key) == es
  {
  }

  // What is left keeps its place before the removed entry and moves up by one after it.
  lemma LeftAt<V>(es: seq<Entry<V>>, key: Key, j: nat)
    requires Distinct(es) && IndexOf(es, key) >= 0 && (j < |es| - 1 || j < |RemoveEntry(es, key)|)
    ensures var after, from := RemoveEntry(es, key), if j < IndexOf(es, key) then j else j + 1;
            |after| == |es| - 1 && after[j] == es[from] && Canon(es[from].key) != Canon(key)
  {
    hide Canon;
  }

  // Removing a key and setting it again moves it to the end; setting it in place would not.
  lemma RemoveThenSetMovesToEnd<V>(es: seq<Entry<V>>, key: Key, value: V)
    requires Distinct(es)
    ensures SetEntry(RemoveEntry(es, key), key, value) == RemoveEntry(es, key) + [Entry(key, value)]
  {
  }

  // ---------- Histories ----------

  datatype Op<V> = Set(key: Key, value: V) | Remove(key: Key) | Clear

  function Apply<V>(es: seq<Entry<V>>, op: Op<V>): seq<Entry<V>> {
    match op
    case Set(key, value) => SetEntry(es, key, value)
    case Remove(key) => RemoveEntry(es, key)
    case Clear => []
  }

  function Run<V>(ops: seq<Op<V>>): seq<Entry<V>> {
    if ops == [] then [] else Apply(Run(ops[..|ops| - 1]), ops[|ops| - 1])
  }

  predicate Touches<V>(op: Op<V>, key: Key) {
    op.Clear? || Canon(op.key) == Canon(key)
  }

  /** The value a history leaves at a key, read off the history alone: that of the last
      operation that touches the key. */
  function LastWrite<V>(ops: seq<Op<V>>, key: Key): Option<V> {
    if ops == [] then None
    else
      var last := ops[|ops| - 1];
      if !Touches(last, key) then LastWrite(ops[..|ops| - 1], key)
      else if last.Set? then Some(last.value) else None
  }

  /** When the key was inserted for the last time: the index of the first Set of it after the
      last operation that removed it, or -1 when it is absent. */
  function InsertedAt<V>(ops: seq<Op<V>>, key: Key): (t: int)
    ensures -1 <= t < |ops|
  {
    if ops == [] then -1
    else
      var last, before := ops[|ops| - 1], InsertedAt(ops[..|ops| - 1], key);
      if !Touches(last, key) then before
      else if !last.Set? then -1
      else if before >= 0 then before else |ops| - 1
  }

  lemma {:induction false} RunDistinct<V>(ops: seq<Op<V>>)
    ensures Distinct(Run(ops))
  {
    if ops != [] {
      var before, last := ops[..|ops| - 1], ops[|ops| - 1];
      RunDistinct(before);
      match last
      case Set(key, value) => SetKeepsDistinct(Run(before), key, value);
      case Remove(key) => RemoveKeepsDistinct(Run(before), key);
      case Clear =>
    }
  }

  // After any history, lookup returns what the last operation touching the key left there.
  lemma {:induction false} RunIsDictionary<V>(ops: seq<Op<V>>, key: Key)
    ensures Lookup(Run(ops), key) == LastWrite(ops, key)
  {
    if ops != [] {
      var before, last := ops[..|ops| - 1], ops[|ops| - 1];
      RunDistinct(before);
      RunIsDictionary(before, key);
      match last
      case Set(k, value) => LookupAfterSet(Run(before), k, value, key);
      case Remove(k) => LookupAfterRemove(Run(before), k, key);
      case Clear =>
    }
  }

  // The keys of `es` were inserted, and in the order in which they stand.
  ghost predicate InInsertionOrder<V>(ops: seq<Op<V>>, es: seq<Entry<V>>) {
    && (forall i :: 0 <= i < |es| ==> InsertedAt(ops, es[i].key) >= 0)
    && (forall i, j :: 0 <= i < j < |es| ==> InsertedAt(ops, es[i].key) < InsertedAt(ops, es[j].key))
  }

  // After any history, the entries stand in the order in which their keys were last inserted.
  lemma {:induction false} RunIsInsertionOrder<V>(ops: seq<Op<V>>)
    ensures InInsertionOrder(ops, Run(ops))
  {
    if ops != [] {
      var before, last := ops[..|ops| - 1], ops[|ops| - 1];
      RunIsInsertionOrder(before);
      RunDistinct(before);
      match last
      case Set(key, value) => SetKeepsOrder(before, key, value);
      case Remove(key) => RemoveKeepsOrder(before, key);
      case Clear =>
    }
  }

  lemma InsertedAtAppend<V>(before: seq<Op<V>>, last: Op<V>, key: Key)
    ensures !Touches(last, key) ==> InsertedAt(before + [last], key) == InsertedAt(before, key)
    ensures Touches(last, key) && !last.Set? ==> InsertedAt(before + [last], key) == -1
    ensures Touches(last, key) && last.Set? ==>
              InsertedAt(before + [last], key)
                  == (if InsertedAt(before, key) >= 0 then InsertedAt(before, key) else |before|)
  {
  }

  lemma SetKeepsOrder<V>(before: seq<Op<V>>, key: Key, value: V)
    requires InInsertionOrder(before, Run(before)) && Distinct(Run(before))
    ensures InInsertionOrder(before + [Op.Set(key, value)], SetEntry(Run(before), key, value))
  {
    var ops, es := before + [Op.Set(key, value)], Run(before);
    var after, p := SetEntry(es, key, value), IndexOf(es, key);
    forall i | 0 <= i < |es|
      ensures after[i].key == es[i].key && InsertedAt(ops, es[i].key) == InsertedAt(before, es[i].key)
    {
      InsertedAtAppend(before, Op.Set(key, value), es[i].key);
    }
    if p < 0 {
      AbsentMeansNotInserted(before, key);
      InsertedAtAppend(before, Op.Set(key, value), key);
    }
  }

  lemma RemoveKeepsOrder<V>(before: seq<Op<V>>, key: Key)
    requires InInsertionOrder(before, Run(before)) && Distinct(Run(before))
    ensures InInsertionOrder(before + [Op<V>.Remove(key)], RemoveEntry(Run(before), key))
  {
    var es, p := Run(before), IndexOf(Run(before), key);
    forall i | 0 <= i < |es| && i != p
      ensures InsertedAt(before + [Op<V>.Remove(key)], es[i].key) == InsertedAt(before, es[i].key)
    {
      OthersDiffer(es, key, i);
      InsertedAtAppend(before, Op<V>.Remove(key), es[i].key);
    }
    DropKeepsOrder(before + [Op<V>.Remove(key)], before, es, p);
  }

  lemma OthersDiffer<V>(es: seq<Entry<V>>, key: Key, i: nat)
    requires Distinct(es) && i < |es| && i != IndexOf(es, key)
    ensures Canon(es[i].key) != Canon(key)
  {
  }

  lemma DropKeepsOrder<V>(ops: seq<Op<V>>, before: seq<Op<V>>, es: seq<Entry<V>>, p: int)
    requires -1 <= p < |es| && InInsertionOrder(before, es)
    requires forall i :: 0 <= i < |es| && i != p ==> InsertedAt(ops, es[i].key) == InsertedAt(before, es[i].key)
    ensures InInsertionOrder(ops, if p < 0 then es else es[..p] + es[p + 1..])
  {
  }

  // A key has an insertion time exactly when it is present.
  lemma {:induction false} AbsentMeansNotInserted<V>(ops: seq<Op<V>>, key: Key)
    ensures InsertedAt(ops, key) >= 0 <==> LastWrite(ops, key).Some?
    ensures InsertedAt(ops, key) >= 0 <==> IndexOf(Run(ops), key) >= 0
  {
    if ops != [] {
      AbsentMeansNotInserted(ops[..|ops| - 1], key);
    }
    RunIsDictionary(ops, key);
  }
}
