/** The strings a JSON value holds, read off the value itself, and that the layout writes exactly these. */
module JsonStrings {
  import opened Options
  import opened Names
  import opened Crusher

  // ----- in the order they are written -----

  /** The strings of the items and of the fields that are not nullish; of an array of objects, column by
      column. */
  function Traversed(v: Json): seq<string>
    decreases v, 3, 0
  {
    match v
    case Str(s) => [s]
    case Obj(fields) => FieldStrings(v, |fields|)
    case Arr(items) => if Columnar(v) then ColumnStrings(v, |Columns(v)|) else ItemStrings(v, |items|)
    case _ => []
  }

  function FieldStrings(v: Json, i: nat): seq<string>
    requires v.Obj? && i <= |v.fields|
    decreases v, 1, i
  {
    if i == 0 then []
    else
      var (_, val) := v.fields[i - 1];
      FieldStrings(v, i - 1) + if IsNullish(val) then [] else Traversed(val)
  }

  function ItemStrings(v: Json, i: nat): seq<string>
    requires v.Arr? && i <= |v.items|
    decreases v, 1, i
  {
    if i == 0 then [] else ItemStrings(v, i - 1) + Traversed(v.items[i - 1])
  }

  function ColumnStrings(v: Json, ki: nat): seq<string>
    requires Columnar(v) && ki <= |Columns(v)|
    decreases v, 2, ki
  {
    if ki == 0 then [] else ColumnStrings(v, ki - 1) + CellStrings(v, Columns(v)[ki - 1], |v.items|)
  }

  function CellStrings(v: Json, key: string, i: nat): seq<string>
    requires Columnar(v) && i <= |v.items|
    decreases v, 1, i
  {
    if i == 0 then []
    else
      var fields := v.items[i - 1].fields;
      var at := FieldAt(fields, key);
      CellStrings(v, key, i - 1)
      + if at.Some? && !IsNullish(fields[at.value].1) then Traversed(fields[at.value].1) else []
  }

  lemma {:induction false} StringsBoth(p: seq<Piece>, q: seq<Piece>)
    ensures Strings(p + q) == Strings(p) + Strings(q)
  {
    if q == [] {
      assert p + q == p;
    } else {
      var n := |q| - 1;
      assert (p + q)[..|p| + n] == p + q[..n];
      StringsBoth(p, q[..n]);
    }
  }

  lemma {:induction false} NoValues(p: seq<Piece>)
    requires forall i | 0 <= i < |p| :: p[i].Text?
    ensures Strings(p) == []
  {
    if p == [] {
    } else {
      NoValues(p[..|p| - 1]);
    }
  }

  lemma CommaSilent(p: seq<Piece>, needed: bool)
    ensures Strings(p + Comma(needed)) == Strings(p)
  {
    StringsBoth(p, Comma(needed));
    NoValues(Comma(needed));
  }

  /** Text around pieces adds no strings. */
  lemma StringsBetween(open: seq<Piece>, p: seq<Piece>, close: seq<Piece>)
    requires forall i | 0 <= i < |open| :: open[i].Text?
    requires forall i | 0 <= i < |close| :: close[i].Text?
    ensures Strings(open + p + close) == Strings(p)
  {
    hide Strings;
    NoValues(open);
    NoValues(close);
    StringsBoth(open, p);
    StringsBoth(open + p, close);
    assert [] + Strings(p) + [] == Strings(p);
  }

  /** The layout writes these strings, in this order. */
  lemma {:induction false} TraversedIsWritten(v: Json)
    ensures Strings(Pieces(v)) == Traversed(v)
    decreases v, 3, 0
  {
    hide FieldPieces, ItemPieces, ColumnPieces, FieldStrings, ItemStrings, ColumnStrings, Columnar, Strings;
    match v {
      case Str(s) => OneString(s);
      case Obj(fields) =>
        FieldsWritten(v, |fields|);
        StringsBetween([Text("{")], FieldPieces(v, |fields|), [Text("}")]);
      case Arr(items) =>
        if Columnar(v) {
          ColumnsWritten(v, |Columns(v)|);
          StringsBetween([Text("{")], ColumnPieces(v, |Columns(v)|), [Text("}")]);
        } else {
          ItemsWritten(v, |items|);
          StringsBetween([Text("[")], ItemPieces(v, |items|), [Text("]")]);
        }
      case _ => NoValues(Pieces(v));
    }
  }

  lemma OneString(s: string)
    ensures Strings([Value(s)]) == [s] && Strings([]) == []
  {
    assert [Value(s)][..0] == [];
  }

  lemma {:induction false} FieldsWritten(v: Json, i: nat)
    requires v.Obj? && i <= |v.fields|
    ensures Strings(FieldPieces(v, i)) == FieldStrings(v, i)
    decreases v, 1, i
  {
    hide Strings, Pieces, Traversed, IsNullish;
    if i == 0 {
      OneString("");
    } else {
      FieldsWritten(v, i - 1);
      var (key, val) := v.fields[i - 1];
      if !IsNullish(val) {
        var before := FieldPieces(v, i - 1);
        TraversedIsWritten(val);
        CommaSilent(before, before != []);
        KeySilent(before + Comma(before != []), key, ":");
        StringsBoth(before + Comma(before != []) + [Text(key), Text(":")], Pieces(val));
      }
    }
  }

  lemma KeySilent(p: seq<Piece>, key: string, after: string)
    ensures Strings(p + [Text(key), Text(after)]) == Strings(p)
  {
    NoValues([Text(key), Text(after)]);
    StringsBoth(p, [Text(key), Text(after)]);
  }

  lemma {:induction false} ItemsWritten(v: Json, i: nat)
    requires v.Arr? && i <= |v.items|
    ensures Strings(ItemPieces(v, i)) == ItemStrings(v, i)
    decreases v, 1, i
  {
    hide Strings, Pieces, Traversed;
    if i == 0 {
      OneString("");
    } else {
      ItemsWritten(v, i - 1);
      TraversedIsWritten(v.items[i - 1]);
      CommaSilent(ItemPieces(v, i - 1), i > 1);
      StringsBoth(ItemPieces(v, i - 1) + Comma(i > 1), Pieces(v.items[i - 1]));
    }
  }

  lemma {:induction false} ColumnsWritten(v: Json, ki: nat)
    requires Columnar(v) && ki <= |Columns(v)|
    ensures Strings(ColumnPieces(v, ki)) == ColumnStrings(v, ki)
    decreases v, 2, ki
  {
    hide Strings, CellPieces, CellStrings, AllKeys;
    if ki == 0 {
      OneString("");
    } else {
      ColumnsWritten(v, ki - 1);
      var key := Columns(v)[ki - 1];
      CellsWritten(v, key, |v.items|);
      var before := ColumnPieces(v, ki - 1);
      CommaSilent(before, ki > 1);
      KeySilent(before + Comma(ki > 1), key, ":[");
      var head := before + Comma(ki > 1) + [Text(key), Text(":[")];
      StringsBoth(head, CellPieces(v, key, |v.items|));
      NoValues([Text("]")]);
      StringsBoth(head + CellPieces(v, key, |v.items|), [Text("]")]);
    }
  }

  lemma {:induction false} CellsWritten(v: Json, key: string, i: nat)
    requires Columnar(v) && i <= |v.items|
    ensures Strings(CellPieces(v, key, i)) == CellStrings(v, key, i)
    decreases v, 1, i
  {
    hide Strings, Pieces, Traversed, IsNullish, AllKeys;
    if i == 0 {
      OneString("");
    } else {
      CellsWritten(v, key, i - 1);
      CommaSilent(CellPieces(v, key, i - 1), i > 1);
      var before := CellPieces(v, key, i - 1) + Comma(i > 1);
      var fields := v.items[i - 1].fields;
      var at := FieldAt(fields, key);
      if at.Some? && !IsNullish(fields[at.value].1) {
        TraversedIsWritten(fields[at.value].1);
        StringsBoth(before, Pieces(fields[at.value].1));
      }
    }
  }

  // ----- whatever the order -----

  /** The strings anywhere in a value, as a multiset. */
  function Leaves(v: Json): multiset<string>
    decreases v, 1, 0
  {
    match v
    case Str(s) => multiset{s}
    case Arr(items) => ItemLeaves(v, |items|)
    case Obj(fields) => FieldLeaves(v, |fields|)
    case _ => multiset{}
  }

  function ItemLeaves(v: Json, i: nat): multiset<string>
    requires v.Arr? && i <= |v.items|
    decreases v, 0, i
  {
    if i == 0 then multiset{} else ItemLeaves(v, i - 1) + Leaves(v.items[i - 1])
  }

  function FieldLeaves(v: Json, i: nat): multiset<string>
    requires v.Obj? && i <= |v.fields|
    decreases v, 0, i
  {
    if i == 0 then multiset{} else FieldLeaves(v, i - 1) + Leaves(v.fields[i - 1].1)
  }

  /** The strings under no nullish field. */
  function Kept(v: Json): multiset<string>
    decreases v, 1, 0
  {
    match v
    case Str(s) => multiset{s}
    case Arr(items) => KeptItems(v, |items|)
    case Obj(fields) => KeptFields(v, |fields|)
    case _ => multiset{}
  }

  function KeptItems(v: Json, i: nat): multiset<string>
    requires v.Arr? && i <= |v.items|
    decreases v, 0, i
  {
    if i == 0 then multiset{} else KeptItems(v, i - 1) + Kept(v.items[i - 1])
  }

  function KeptFields(v: Json, i: nat): multiset<string>
    requires v.Obj? && i <= |v.fields|
    decreases v, 0, i
  {
    if i == 0 then multiset{}
    else KeptFields(v, i - 1) + if IsNullish(v.fields[i - 1].1) then multiset{} else Kept(v.fields[i - 1].1)
  }

  /** Leaving out nullish fields loses no string but the empty one. */
  lemma {:induction false} OnlyEmptyStringsLost(v: Json, s: string)
    requires s != ""
    ensures Kept(v)[s] == Leaves(v)[s]
    decreases v, 1, 0
  {
    match v {
      case Arr(items) => ItemsLost(v, |items|, s);
      case Obj(fields) => FieldsLost(v, |fields|, s);
      case _ =>
    }
  }

  lemma {:induction false} ItemsLost(v: Json, i: nat, s: string)
    requires v.Arr? && i <= |v.items| && s != ""
    ensures KeptItems(v, i)[s] == ItemLeaves(v, i)[s]
    decreases v, 0, i
  {
    hide Kept, Leaves;
    if i == 0 {
    } else {
      ItemsLost(v, i - 1, s);
      OnlyEmptyStringsLost(v.items[i - 1], s);
    }
  }

  lemma {:induction false} FieldsLost(v: Json, i: nat, s: string)
    requires v.Obj? && i <= |v.fields| && s != ""
    ensures KeptFields(v, i)[s] == FieldLeaves(v, i)[s]
    decreases v, 0, i
  {
    hide Kept, Leaves, IsNullish;
    if i == 0 {
    } else {
      FieldsLost(v, i - 1, s);
      OnlyEmptyStringsLost(v.fields[i - 1].1, s);
      NullishHoldsNothing(v.fields[i - 1].1, s);
    }
  }

  lemma NullishHoldsNothing(v: Json, s: string)
    requires s != ""
    ensures IsNullish(v) ==> Leaves(v)[s] == 0
  {
  }

  // ----- columns hold what rows hold -----

  /** The keys of every object are distinct, as in a parsed one. */
  predicate Parsed(v: Json)
  {
    match v
    case Arr(items) => forall i | 0 <= i < |items| :: Parsed(items[i])
    case Obj(fields) =>
      && DistinctKeys(fields)
      && forall i | 0 <= i < |fields| :: Parsed(fields[i].1)
    case _ => true
  }

  predicate DistinctKeys(fields: seq<(string, Json)>)
  {
    forall i, j | 0 <= i < j < |fields| :: fields[i].0 != fields[j].0
  }

  /** What an object has in a column. */
  function Cell(fields: seq<(string, Json)>, key: string): multiset<string>
  {
    var at := FieldAt(fields, key);
    if at.Some? && !IsNullish(fields[at.value].1) then Kept(fields[at.value].1) else multiset{}
  }

  /** A row, over some columns. */
  function Row(fields: seq<(string, Json)>, keys: seq<string>): multiset<string>
  {
    if keys == [] then multiset{} else Row(fields, keys[..|keys| - 1]) + Cell(fields, keys[|keys| - 1])
  }

  /** A column, over the first `i` items. */
  function Column(v: Json, key: string, i: nat): multiset<string>
    requires Columnar(v) && i <= |v.items|
  {
    if i == 0 then multiset{} else Column(v, key, i - 1) + Cell(v.items[i - 1].fields, key)
  }

  /** The first columns, over the first `i` items. */
  function Grid(v: Json, keys: seq<string>, i: nat): multiset<string>
    requires Columnar(v) && i <= |v.items|
  {
    if keys == [] then multiset{} else Grid(v, keys[..|keys| - 1], i) + Column(v, keys[|keys| - 1], i)
  }

  lemma {:induction false} GridAddsRow(v: Json, keys: seq<string>, i: nat)
    requires Columnar(v) && i < |v.items|
    ensures Grid(v, keys, i + 1) == Grid(v, keys, i) + Row(v.items[i].fields, keys)
  {
    hide Cell, AllKeys;
    if keys == [] {
    } else {
      GridAddsRow(v, keys[..|keys| - 1], i);
    }
  }

  lemma {:induction false} EmptyGrid(v: Json, keys: seq<string>)
    requires Columnar(v)
    ensures Grid(v, keys, 0) == multiset{}
  {
    hide AllKeys;
    if keys == [] {
    } else {
      EmptyGrid(v, keys[..|keys| - 1]);
    }
  }

  /** One more field adds its strings to the row, once, if its column is among the keys. */
  lemma {:induction false} RowAddsField(fields: seq<(string, Json)>, keys: seq<string>)
    requires fields != [] && DistinctKeys(fields) && Distinct(keys)
    ensures var (key, val) := fields[|fields| - 1];
            Row(fields, keys) == Row(fields[..|fields| - 1], keys)
                                 + if key in keys && !IsNullish(val) then Kept(val) else multiset{}
  {
    hide IsNullish, Kept;
    if keys == [] {
    } else {
      var n := |keys| - 1;
      RowAddsField(fields, keys[..n]);
      CellAddsField(fields, keys[n]);
      assert keys == keys[..n] + [keys[n]];
      assert forall k | k in keys[..n] :: k != keys[n];
    }
  }

  lemma CellAddsField(fields: seq<(string, Json)>, k: string)
    requires fields != [] && DistinctKeys(fields)
    ensures var (key, val) := fields[|fields| - 1];
            Cell(fields, k) == Cell(fields[..|fields| - 1], k)
                               + if key == k && !IsNullish(val) then Kept(val) else multiset{}
  {
    hide IsNullish, Kept;
    var n := |fields| - 1;
    var before := FieldAt(fields[..n], k);
    forall i | 0 <= i < n
      ensures fields[..n][i].0 != fields[n].0
    {
      assert fields[..n][i] == fields[i];
    }
  }

  lemma {:induction false} EmptyRow(keys: seq<string>)
    ensures Row([], keys) == multiset{}
  {
    if keys == [] {
    } else {
      EmptyRow(keys[..|keys| - 1]);
    }
  }

  /** A row over columns that hold all its keys is the object. */
  lemma {:induction false} RowIsObject(v: Json, m: nat, keys: seq<string>)
    requires v.Obj? && m <= |v.fields| && DistinctKeys(v.fields) && Distinct(keys)
    requires forall i | 0 <= i < |v.fields| && !IsNullish(v.fields[i].1) :: v.fields[i].0 in keys
    ensures Row(v.fields[..m], keys) == KeptFields(v, m)
  {
    hide Row, IsNullish, Kept;
    if m == 0 {
      EmptyRow(keys);
    } else {
      RowIsObject(v, m - 1, keys);
      RowAddsField(v.fields[..m], keys);
      assert v.fields[..m][..m - 1] == v.fields[..m - 1];
    }
  }

  lemma {:induction false} GridIsItems(v: Json, i: nat)
    requires Columnar(v) && Parsed(v) && i <= |v.items|
    ensures Grid(v, Columns(v), i) == KeptItems(v, i)
  {
    hide Grid, Row, AllKeys, KeptFields, Columns;
    if i == 0 {
      EmptyGrid(v, Columns(v));
    } else {
      GridIsItems(v, i - 1);
      GridAddsRow(v, Columns(v), i - 1);
      var item := v.items[i - 1];
      assert Parsed(item);
      ColumnsCover(v, i - 1);
      RowIsObject(item, |item.fields|, Columns(v));
      assert item.fields[..|item.fields|] == item.fields;
    }
  }

  lemma ColumnsCover(v: Json, i: nat)
    requires Columnar(v) && i < |v.items|
    ensures Distinct(Columns(v))
    ensures var fields := v.items[i].fields;
            forall j | 0 <= j < |fields| && !IsNullish(fields[j].1) :: fields[j].0 in Columns(v)
  {
    hide IsNullish;
    SortedDistinct(AllKeys(v.items));
    forall j | 0 <= j < |v.items[i].fields| && !IsNullish(v.items[i].fields[j].1)
      ensures v.items[i].fields[j].0 in Columns(v)
    {
      assert v.items[i].fields[j].0 in KeysOf(v.items[i].fields);
    }
  }

  /** The strings written are those under no nullish field: no string is lost, none doubled. */
  lemma {:induction false} TraversedIsKept(v: Json)
    requires Parsed(v)
    ensures multiset(Traversed(v)) == Kept(v)
    decreases v, 3, 0
  {
    hide FieldStrings, ItemStrings, ColumnStrings, KeptItems, KeptFields, Columnar, Grid;
    match v {
      case Obj(fields) => FieldsKept(v, |fields|);
      case Arr(items) =>
        if Columnar(v) {
          ColumnsKept(v, |Columns(v)|);
          assert Columns(v)[..|Columns(v)|] == Columns(v);
          GridIsItems(v, |items|);
        } else {
          ItemsKept(v, |items|);
        }
      case _ =>
    }
  }

  lemma {:induction false} FieldsKept(v: Json, i: nat)
    requires v.Obj? && i <= |v.fields| && Parsed(v)
    ensures multiset(FieldStrings(v, i)) == KeptFields(v, i)
    decreases v, 1, i
  {
    hide Traversed, Kept, IsNullish;
    if i == 0 {
    } else {
      FieldsKept(v, i - 1);
      TraversedIsKept(v.fields[i - 1].1);
    }
  }

  lemma {:induction false} ItemsKept(v: Json, i: nat)
    requires v.Arr? && i <= |v.items| && Parsed(v)
    ensures multiset(ItemStrings(v, i)) == KeptItems(v, i)
    decreases v, 1, i
  {
    hide Traversed, Kept;
    if i == 0 {
    } else {
      ItemsKept(v, i - 1);
      TraversedIsKept(v.items[i - 1]);
    }
  }

  lemma {:induction false} ColumnsKept(v: Json, ki: nat)
    requires Columnar(v) && ki <= |Columns(v)| && Parsed(v)
    ensures multiset(ColumnStrings(v, ki)) == Grid(v, Columns(v)[..ki], |v.items|)
    decreases v, 2, ki
  {
    hide CellStrings, Column, AllKeys;
    if ki == 0 {
    } else {
      ColumnsKept(v, ki - 1);
      CellsKept(v, Columns(v)[ki - 1], |v.items|);
      assert Columns(v)[..ki][..ki - 1] == Columns(v)[..ki - 1];
    }
  }

  lemma {:induction false} CellsKept(v: Json, key: string, i: nat)
    requires Columnar(v) && i <= |v.items| && Parsed(v)
    ensures multiset(CellStrings(v, key, i)) == Column(v, key, i)
    decreases v, 1, i
  {
    hide Traversed, Kept, IsNullish, AllKeys;
    if i == 0 {
    } else {
      CellsKept(v, key, i - 1);
      var fields := v.items[i - 1].fields;
      var at := FieldAt(fields, key);
      assert Parsed(v.items[i - 1]);
      if at.Some? {
        TraversedIsKept(fields[at.value].1);
      }
    }
  }
}
