/**
 The blacklist store: one list document of a given kind (CIDR ranges,
 autonomous-system numbers or nameservers) held as its ordered sequence of
 records, with the `add`, `remove` and `parse` operations of `Blacklist`.

 A failed `add` or `remove` raises before touching the document, so in this
 functional model it returns an error and no new record sequence; the caller
 keeps the sequence it had.
 */
module Blacklists {
  import opened Results
  import Text

  /** The list kinds whose documents carry one value per record. */
  datatype Kind = Cidr | Asn | Ns

  /** One record of a list document: the kind's value (`ip`, `asn` or `ns`),
      the `disable` flag and an optional `comment`. */
  datatype Item = Item(value: string, disabled: bool, comment: Option<string>)

  /** What `add` and `remove` are given: a bare value or a whole record. */
  datatype Candidate = Bare(bare: string) | Record(item: Item)

  /** The `ValueError`s the store raises, told apart by cause. */
  datatype Error = Malformed(value: string) | Duplicate(value: string) | NotFound(value: string)

  /** A schema parser: the list kind it reads and its entry validator. The
      validators' definitions are not part of this model, so a parser is
      given its validator as a predicate on values. */
  datatype Parser = Parser(kind: Kind, valid: string -> bool)

  /** A bare value becomes an active record without a comment. */
  function Normalize(c: Candidate): Item {
    match c
    case Bare(v) => Item(v, false, None)
    case Record(item) => item
  }

  /** The value a candidate names. */
  function ValueOf(c: Candidate): string {
    Normalize(c).value
  }

  /** The key under which two values count as the same entry: nameservers
      are compared without regard to ASCII letter case, other kinds exactly. */
  function Key(kind: Kind, v: string): string {
    if kind == Ns then Text.AsciiLower(v) else v
  }

  /** Some record, active or disabled, has value `v`. */
  predicate Present(items: seq<Item>, v: string) {
    exists i :: 0 <= i < |items| && items[i].value == v
  }

  /** Some record, active or disabled, has the same key as `v`. */
  predicate KeyTaken(kind: Kind, items: seq<Item>, v: string) {
    exists i :: 0 <= i < |items| && Key(kind, items[i].value) == Key(kind, v)
  }

  /** Some non-disabled record has value `v`. */
  predicate Active(items: seq<Item>, v: string) {
    exists i :: 0 <= i < |items| && !items[i].disabled && items[i].value == v
  }

  /** No two records of the document share a key. */
  predicate Unique(kind: Kind, items: seq<Item>) {
    forall i, j :: 0 <= i < j < |items| ==> Key(kind, items[i].value) != Key(kind, items[j].value)
  }

  /** `parse()`: the values of the records that are not disabled. */
  function Parse(items: seq<Item>): (active: set<string>)
    ensures forall v :: v in active <==> Active(items, v)
  {
    if |items| == 0 then {}
    else
      var init, last := items[..|items| - 1], items[|items| - 1];
      assert forall i :: 0 <= i < |init| ==> init[i] == items[i];
      if last.disabled then Parse(init) else Parse(init) + {last.value}
  }

  /** The records of `items` whose value is not `v`, in their order. */
  function Without(items: seq<Item>, v: string): (kept: seq<Item>)
    ensures |kept| <= |items|
    ensures forall x :: x in kept <==> x in items && x.value != v
  {
    if |items| == 0 then []
    else
      var rest := Without(items[..|items| - 1], v);
      var last := items[|items| - 1];
      assert items == items[..|items| - 1] + [last];
      if last.value == v then rest else rest + [last]
  }

  /** `add(candidate)`: validate the value, refuse it when a record with the
      same key exists (disabled ones included), otherwise append it. The
      clause on a `Present` value is a corollary of the `KeyTaken` one, kept
      because it is the form the tests use: the very same value, active or
      disabled, is refused. */
  function Add(p: Parser, items: seq<Item>, c: Candidate): (r: Result<seq<Item>, Error>)
    ensures r.Ok? <==> p.valid(ValueOf(c)) && !KeyTaken(p.kind, items, ValueOf(c))
    ensures r.Ok? ==> r.value == items + [Normalize(c)]
    ensures !p.valid(ValueOf(c)) ==> r == Err(Malformed(ValueOf(c)))
    ensures p.valid(ValueOf(c)) && KeyTaken(p.kind, items, ValueOf(c)) ==> r == Err(Duplicate(ValueOf(c)))
    ensures p.valid(ValueOf(c)) && Present(items, ValueOf(c)) ==> r == Err(Duplicate(ValueOf(c)))
    ensures r.Ok? ==> Parse(r.value) == Parse(items) + (if Normalize(c).disabled then {} else {ValueOf(c)})
    ensures r.Ok? && Unique(p.kind, items) ==> Unique(p.kind, r.value)
  {
    var item := Normalize(c);
    if !p.valid(item.value) then
      Err(Malformed(item.value))
    else if KeyTaken(p.kind, items, item.value) then
      Err(Duplicate(item.value))
    else
      var after := items + [item];
      assert after[..|after| - 1] == items;
      Ok(after)
  }

  /** `remove(candidate)`: drop the records with the candidate's value, or
      raise when there is none. */
  function Remove(items: seq<Item>, c: Candidate): (r: Result<seq<Item>, Error>)
    ensures r.Err? <==> !Present(items, ValueOf(c))
    ensures r.Err? ==> r.error == NotFound(ValueOf(c))
    ensures r.Ok? ==> !Present(r.value, ValueOf(c))
    ensures r.Ok? ==> forall x :: x in items && x.value != ValueOf(c) ==> x in r.value
    ensures r.Ok? ==> forall x :: x in r.value ==> x in items
    ensures r.Ok? ==> Parse(r.value) == Parse(items) - {ValueOf(c)}
    ensures r.Ok? ==> r.value == Without(items, ValueOf(c))
  {
    var v := ValueOf(c);
    if Present(items, v) then
      var kept := Without(items, v);
      assert forall i :: 0 <= i < |kept| ==> kept[i] in kept;
      Ok(kept)
    else
      Err(NotFound(v))
  }

  /** Dropping the records with one value keeps the others free of shared keys. */
  lemma {:induction false} WithoutKeepsUnique(kind: Kind, items: seq<Item>, v: string)
    requires Unique(kind, items)
    ensures Unique(kind, Without(items, v))
  {
    if |items| > 0 {
      var init, last := items[..|items| - 1], items[|items| - 1];
      WithoutKeepsUnique(kind, init, v);
      var rest := Without(init, v);
      if last.value != v {
        forall i | 0 <= i < |rest|
          ensures Key(kind, rest[i].value) != Key(kind, last.value)
        {
          assert rest[i] in init;
          var j :| 0 <= j < |init| && init[j] == rest[i];
          assert items[j] == init[j];
        }
      }
    }
  }

  /** A successful `remove` keeps the document free of shared keys. */
  lemma RemoveKeepsUnique(kind: Kind, items: seq<Item>, c: Candidate)
    requires Unique(kind, items)
    requires Remove(items, c).Ok?
    ensures Unique(kind, Remove(items, c).value)
  {
    WithoutKeepsUnique(kind, items, ValueOf(c));
  }

  /** A record list with no record of value `v` is left whole by `Without`. */
  lemma {:induction false} WithoutAbsent(items: seq<Item>, v: string)
    requires !Present(items, v)
    ensures Without(items, v) == items
  {
    if |items| > 0 {
      var init := items[..|items| - 1];
      assert !Present(init, v) by {
        forall i | 0 <= i < |init| ensures init[i].value != v {
          assert init[i] == items[i];
        }
      }
      WithoutAbsent(init, v);
      assert items == init + [items[|items| - 1]];
    }
  }

  /** `remove` undoes a successful `add`: removing the value just added gives
      back the document as it was. */
  lemma RemoveUndoesAdd(p: Parser, items: seq<Item>, c: Candidate)
    requires Add(p, items, c).Ok?
    ensures Remove(Add(p, items, c).value, Bare(ValueOf(c))) == Ok(items)
  {
    var v := ValueOf(c);
    var after := Add(p, items, c).value;
    assert after == items + [Normalize(c)];
    assert !Present(items, v);
    assert after[|items|].value == v;
    assert after[..|after| - 1] == items;
    WithoutAbsent(items, v);
  }

  /** In a document without shared keys, at most one record has a given
      value, so dropping that value removes exactly one record. */
  lemma {:induction false} WithoutDropsOne(kind: Kind, items: seq<Item>, v: string)
    requires Unique(kind, items)
    requires Present(items, v)
    ensures |Without(items, v)| == |items| - 1
  {
    var n := |items|;
    var init, last := items[..n - 1], items[n - 1];
    assert Unique(kind, init) by {
      forall i, j | 0 <= i < j < |init|
        ensures Key(kind, init[i].value) != Key(kind, init[j].value)
      {
        assert init[i] == items[i] && init[j] == items[j];
      }
    }
    if last.value == v {
      assert !Present(init, v) by {
        forall i | 0 <= i < |init|
          ensures init[i].value != v
        {
          assert init[i] == items[i];
        }
      }
      WithoutAbsent(init, v);
    } else {
      var i :| 0 <= i < n && items[i].value == v;
      assert init[i] == items[i];
      WithoutDropsOne(kind, init, v);
    }
  }

  /** On a document without shared keys, a successful `remove` deletes
      exactly one record. */
  lemma RemoveDeletesOneRecord(kind: Kind, items: seq<Item>, c: Candidate)
    requires Unique(kind, items)
    requires Remove(items, c).Ok?
    ensures |Remove(items, c).value| == |items| - 1
  {
    WithoutDropsOne(kind, items, ValueOf(c));
  }

  /** Adding the same candidate twice: the second add is refused as a
      duplicate. */
  lemma AddTwiceRefused(p: Parser, items: seq<Item>, c: Candidate)
    requires Add(p, items, c).Ok?
    ensures Add(p, Add(p, items, c).value, c) == Err(Duplicate(ValueOf(c)))
  {
  }

  /** One step of `Without`: the last record is kept exactly when its value
      differs from `v`. */
  lemma WithoutStep(init: seq<Item>, last: Item, v: string)
    ensures Without(init + [last], v) == Without(init, v) + (if last.value == v then [] else [last])
  {
  }

  /** `Without` works record by record: on two record lists glued together
      it keeps, in order, what it keeps of each. With `WithoutStep`, this
      fixes the order of the records a removal leaves. */
  lemma {:induction false} WithoutAppend(a: seq<Item>, b: seq<Item>, v: string)
    ensures Without(a + b, v) == Without(a, v) + Without(b, v)
    decreases |b|
  {
    if |b| == 0 {
      assert a + b == a;
    } else {
      var initB, last := b[..|b| - 1], b[|b| - 1];
      assert b == initB + [last];
      assert a + b == (a + initB) + [last];
      WithoutStep(a + initB, last, v);
      WithoutStep(initB, last, v);
      WithoutAppend(a, initB, v);
    }
  }

  /** Removing a value keeps the other records in their order: the records
      before and after a removed one are kept as runs, side by side. */
  lemma RemoveKeepsOrder(items: seq<Item>, k: nat, c: Candidate)
    requires k < |items| && items[k].value == ValueOf(c)
    ensures Remove(items, c).Ok?
    ensures Remove(items, c).value == Without(items[..k], ValueOf(c)) + Without(items[k + 1..], ValueOf(c))
  {
    WithoutAround(items, k, ValueOf(c));
    assert Present(items, ValueOf(c));
  }

  /** `Without` on a list split around a record holding `v`. */
  lemma WithoutAround(items: seq<Item>, k: nat, v: string)
    requires k < |items| && items[k].value == v
    ensures Without(items, v) == Without(items[..k], v) + Without(items[k + 1..], v)
  {
    var before, x, after := items[..k], items[k], items[k + 1..];
    var rest := [x] + after;
    assert before + rest == items;
    WithoutAppend(before, rest, v);
    WithoutAppend([x], after, v);
    assert [] + [x] == [x];
    WithoutStep([], x, v);
    var none := Without([x], v);
    assert none == [];
    assert Without(rest, v) == Without(after, v);
  }
}
