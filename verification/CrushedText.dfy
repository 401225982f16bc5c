/** Reading the crusher's text back: when it determines the string values, and when it does not. */
module CrushedText {
  import opened Options
  import opened Names
  import opened DecimalText
  import opened Crusher
  import opened JsonStrings

  function Prepend(s: string, rest: Option<seq<string>>): Option<seq<string>>
  {
    match rest
    case None => None
    case Some(more) => Some([s] + more)
  }

  /** A reader of the text: it skips to the next quote or tilde and reads a string there, or the number
      of one of the literals so far. */
  function ReadStrings(t: string, literals: seq<string>): Option<seq<string>>
    decreases |t|
  {
    if t == [] then Some([])
    else if t[0] == '\"' then
      match ParseString(t[1..])
      case None => None
      case Some((s, rest)) => Prepend(s, ReadStrings(rest, literals + [s]))
    else if t[0] == '~' then
      if |t| < 2 || !IsDigit(t[1]) then None
      else
        var (n, rest) := ReadDecimal(t[1..], 0);
        if n < |literals| then Prepend(literals[n], ReadStrings(rest, literals)) else None
    else ReadStrings(t[1..], literals)
  }

  /** Text in which the reader finds nothing. */
  predicate Silent(t: string)
  {
    '\"' !in t && '~' !in t
  }

  /** The characters of JSON numbers (section 6 of RFC 8259). */
  predicate NumberText(t: string)
  {
    t != [] && forall i | 0 <= i < |t| :: IsDigit(t[i]) || t[i] in "+-.eE"
  }

  /** Every key that is written is one of `keys`, and numbers are numbers. */
  predicate Keyed(v: Json, keys: set<string>)
  {
    match v
    case Number(text) => NumberText(text)
    case Arr(items) => forall i | 0 <= i < |items| :: Keyed(items[i], keys)
    case Obj(fields) =>
      forall i | 0 <= i < |fields| :: (IsNullish(fields[i].1) || fields[i].0 in keys) && Keyed(fields[i].1, keys)
    case _ => true
  }

  /** Fixed text is silent, and after a string comes text that does not start with a digit. */
  predicate Legible(pieces: seq<Piece>)
  {
    && (forall i | 0 <= i < |pieces| && pieces[i].Text? :: Silent(pieces[i].text))
    && (forall i | 0 < i < |pieces| && pieces[i - 1].Value? :: StartsText(pieces[i]))
  }

  predicate StartsText(p: Piece)
  {
    p.Text? && p.text != [] && !IsDigit(p.text[0])
  }

  lemma {:induction false} SilentSkips(t: string, rest: string, literals: seq<string>)
    requires Silent(t)
    ensures ReadStrings(t + rest, literals) == ReadStrings(rest, literals)
  {
    if t == [] {
      assert t + rest == rest;
    } else {
      assert t[0] in t;
      assert (t + rest)[1..] == t[1..] + rest;
      SilentSkips(t[1..], rest, literals);
    }
  }

  lemma LiteralReads(s: string, rest: string, literals: seq<string>)
    ensures ReadStrings(RenderChunk(Lit(s)) + rest, literals) == Prepend(s, ReadStrings(rest, literals + [s]))
  {
    hide ParseString, Escape;
    var t := RenderChunk(Lit(s)) + rest;
    EscapeRoundTrip(s, rest);
    assert t[1..] == Escape(s) + "\"" + rest;
  }

  lemma ReferenceReads(n: nat, rest: string, literals: seq<string>)
    requires n < |literals| && (rest == [] || !IsDigit(rest[0]))
    ensures ReadStrings(RenderChunk(Ref(n)) + rest, literals) == Prepend(literals[n], ReadStrings(rest, literals))
  {
    hide Decimal, ReadDecimal, IsDigit, Prepend;
    var t := RenderChunk(Ref(n)) + rest;
    assert t[0] == '~' && t[1..] == Decimal(n) + rest;
    DecimalReads(n, rest);
    DecimalSize(n);
    assert |t| >= 2 && t[1] == Decimal(n)[0];
    NoDigitsRead(rest, n);
    TildeReads(t, literals);
  }

  lemma NoDigitsRead(rest: string, n: nat)
    requires rest == [] || !IsDigit(rest[0])
    ensures ReadDecimal(rest, n) == (n, rest)
  {
  }

  lemma TildeReads(t: string, literals: seq<string>)
    requires |t| >= 2 && t[0] == '~' && IsDigit(t[1]) && ReadDecimal(t[1..], 0).0 < |literals|
    ensures var (n, rest) := ReadDecimal(t[1..], 0);
            ReadStrings(t, literals) == Prepend(literals[n], ReadStrings(rest, literals))
  {
    hide ReadDecimal, IsDigit, Prepend;
  }

  lemma {:induction false} CodedFront(x: Piece, q: seq<Piece>, seen: map<string, nat>)
    ensures var (c, m) := CodedPiece(x, seen);
            Coded([x] + q, seen) == ([c] + Coded(q, m).0, Coded(q, m).1)
  {
    hide CodedPiece, Coded;
    if q == [] {
      assert [x] + q == [x];
      CodedOne(x, seen);
      assert [CodedPiece(x, seen).0] + [] == [CodedPiece(x, seen).0];
    } else {
      var n := |q| - 1;
      CodedFront(x, q[..n], seen);
      assert [x] + q == ([x] + q[..n]) + [q[n]] && q == q[..n] + [q[n]];
      CodedStep([x] + q[..n], q[n], seen);
      var (c, m) := CodedPiece(x, seen);
      CodedStep(q[..n], q[n], m);
      var (d, _) := CodedPiece(q[n], Coded(q[..n], m).1);
      assert ([c] + Coded(q[..n], m).0) + [d] == [c] + (Coded(q[..n], m).0 + [d]);
    }
  }

  lemma CodedOne(x: Piece, seen: map<string, nat>)
    ensures var (c, m) := CodedPiece(x, seen); Coded([x], seen) == ([c], m) && Coded([], m) == ([], m)
  {
    CodedStep([], x, seen);
    assert [] + [x] == [x];
    assert [] + [CodedPiece(x, seen).0] == [CodedPiece(x, seen).0];
  }

  lemma RenderStep(chunks: seq<Chunk>, c: Chunk)
    ensures Render(chunks + [c]) == Render(chunks) + RenderChunk(c)
  {
    assert (chunks + [c])[..|chunks|] == chunks;
  }

  lemma RenderOne(c: Chunk)
    ensures Render([c]) == RenderChunk(c) && Render([]) == []
  {
    hide RenderChunk;
    RenderStep([], c);
    assert [] + [c] == [c];
    assert [] + RenderChunk(c) == RenderChunk(c);
  }

  lemma {:induction false} RenderFront(c: Chunk, chunks: seq<Chunk>)
    ensures Render([c] + chunks) == RenderChunk(c) + Render(chunks)
  {
    hide RenderChunk, Render;
    if chunks == [] {
      RenderOne(c);
      assert [c] + chunks == [c];
      assert RenderChunk(c) + [] == RenderChunk(c);
    } else {
      var n := |chunks| - 1;
      RenderFront(c, chunks[..n]);
      RenderStep([c] + chunks[..n], chunks[n]);
      RenderStep(chunks[..n], chunks[n]);
      assert chunks[..n] + [chunks[n]] == chunks;
      assert ([c] + chunks[..n]) + [chunks[n]] == [c] + chunks;
      assert (RenderChunk(c) + Render(chunks[..n])) + RenderChunk(chunks[n])
          == RenderChunk(c) + (Render(chunks[..n]) + RenderChunk(chunks[n]));
    }
  }

  lemma StringsFront(x: Piece, q: seq<Piece>)
    ensures Strings([x] + q) == (if x.Value? then [x.s] else []) + Strings(q)
  {
    StringsBoth([x], q);
    assert [x][..0] == [];
  }

  lemma TextStart(q: seq<Piece>, seen: map<string, nat>)
    requires q != [] && StartsText(q[0])
    ensures var t := Render(Coded(q, seen).0); t != [] && !IsDigit(t[0])
  {
    hide Coded, Render;
    assert q == [q[0]] + q[1..];
    CodedFront(q[0], q[1..], seen);
    RenderFront(Raw(q[0].text), Coded(q[1..], seen).0);
  }

  lemma NothingRendered(seen: map<string, nat>)
    ensures Render(Coded([], seen).0) == [] && Strings([]) == []
  {
  }

  /** Legible pieces read back from their text. */
  lemma {:induction false} LegibleReads(pieces: seq<Piece>, seen: map<string, nat>, literals: seq<string>)
    requires Legible(pieces) && Numbered(seen, literals)
    ensures ReadStrings(Render(Coded(pieces, seen).0), literals) == Some(Strings(pieces))
    decreases |pieces|
  {
    hide Numbered, Coded, Render, Strings, ReadStrings, RenderChunk, Silent;
    if pieces == [] {
      NothingRendered(seen);
      NothingRead(literals);
    } else {
      var x, q := pieces[0], pieces[1..];
      var (c, m) := CodedPiece(x, seen);
      var rest := Render(Coded(q, m).0);
      assert pieces == [x] + q;
      CodedFront(x, q, seen);
      RenderFront(c, Coded(q, m).0);
      StringsFront(x, q);
      RestLegible(pieces);
      match x {
        case Text(t) =>
          RawIsText(t);
          SilentSkips(t, rest, literals);
          LegibleReads(q, m, literals);
          assert [] + Strings(q) == Strings(q);
        case Value(s) =>
          if s in seen {
            SeenAt(seen, literals, s);
            if q != [] {
              TextStart(q, m);
            } else {
              NothingRendered(m);
            }
            ReferenceReads(seen[s], rest, literals);
            LegibleReads(q, m, literals);
          } else {
            NumberedGrows(seen, literals, s);
            LiteralReads(s, rest, literals);
            LegibleReads(q, m, literals + [s]);
          }
      }
    }
  }

  lemma NothingRead(literals: seq<string>)
    ensures ReadStrings([], literals) == Some([])
  {
  }

  lemma RestLegible(pieces: seq<Piece>)
    requires Legible(pieces) && pieces != []
    ensures Legible(pieces[1..])
    ensures pieces[0].Text? ==> Silent(pieces[0].text)
    ensures pieces[0].Value? && |pieces| > 1 ==> StartsText(pieces[1..][0])
  {
    hide Silent, StartsText;
    var q := pieces[1..];
    forall i | 0 < i < |q| && q[i - 1].Value?
      ensures StartsText(q[i])
    {
      assert pieces[(i + 1) - 1] == q[i - 1];
      assert StartsText(pieces[i + 1]);
    }
    if |pieces| > 1 && pieces[0].Value? {
      assert pieces[1 - 1].Value?;
      assert StartsText(pieces[1]);
    }
  }

  // ----- what is written is legible -----

  /** More text may follow these pieces, and what follows a string does not look like part of it. */
  lemma Joins(p: seq<Piece>, q: seq<Piece>)
    requires Legible(p) && Legible(q)
    requires p == [] || p[|p| - 1].Text? || q == [] || StartsText(q[0])
    ensures Legible(p + q)
  {
    hide Silent, StartsText;
    var r := p + q;
    forall i | 0 < i < |r| && r[i - 1].Value?
      ensures StartsText(r[i])
    {
      if i < |p| {
        assert r[i] == p[i] && r[i - 1] == p[i - 1];
      } else if i > |p| {
        var j := i - |p|;
        assert r[i] == q[j] && r[i - 1] == q[j - 1];
      }
    }
  }

  lemma OneLegible(x: Piece)
    requires x.Text? ==> Silent(x.text)
    ensures Legible([x])
  {
  }

  /** Text that stays silent and does not start with a digit may always follow. */
  lemma TextFollows(p: seq<Piece>, t: string)
    requires Legible(p) && Silent(t) && StartsText(Text(t))
    ensures Legible(p + [Text(t)])
  {
    hide Legible, Silent, StartsText;
    OneLegible(Text(t));
    Joins(p, [Text(t)]);
  }

  lemma CommaFollows(p: seq<Piece>, needed: bool)
    requires Legible(p)
    ensures Legible(p + Comma(needed))
  {
    hide Legible;
    if needed {
      TextFollows(p, ",");
    } else {
      assert p + Comma(needed) == p;
    }
  }

  lemma BracketFollows(p: seq<Piece>)
    requires Legible(p)
    ensures Legible(p + [Text("]")])
  {
    hide Legible;
    TextFollows(p, "]");
  }

  lemma NumbersSilent(t: string)
    requires NumberText(t)
    ensures Silent(t)
  {
  }

  /** A key and the text after it follow a comma, or stand first. */
  lemma KeyFollows(p: seq<Piece>, needed: bool, key: string, after: string)
    requires Legible(p) && (needed || p == []) && Silent(key) && after in [":", ":["]
    ensures Legible(p + Comma(needed) + [Text(key), Text(after)])
  {
    hide Silent;
    CommaFollows(p, needed);
    OneLegible(Text(key));
    assert Silent(after) by {
      AfterKeySilent(after);
    }
    OneLegible(Text(after));
    Joins([Text(key)], [Text(after)]);
    assert [Text(key)] + [Text(after)] == [Text(key), Text(after)];
    Joins(p + Comma(needed), [Text(key), Text(after)]);
  }

  lemma AfterKeySilent(after: string)
    requires after in [":", ":["]
    ensures Silent(after)
  {
  }

  /** Pieces put between brackets. */
  lemma BracketsLegible(open: string, p: seq<Piece>, close: string)
    requires Legible(p) && (open, close) in [("{", "}"), ("[", "]")]
    ensures Legible([Text(open)] + p + [Text(close)])
  {
    hide Legible;
    OneLegible(Text(open));
    Joins([Text(open)], p);
    TextFollows([Text(open)] + p, close);
  }

  ghost predicate AllSilent(keys: set<string>)
  {
    forall k | k in keys :: Silent(k)
  }

  /** The pieces of a value with silent keys are legible. */
  lemma {:induction false} PiecesLegible(v: Json, keys: set<string>)
    requires Keyed(v, keys) && AllSilent(keys)
    ensures Legible(Pieces(v))
    decreases v, 3, 0
  {
    hide Legible, FieldPieces, ItemPieces, ColumnPieces, Columnar, Silent, NumberText, AllSilent;
    match v {
      case Null => WordsSilent(); OneLegible(Text("null"));
      case Bool(b) => WordsSilent(); OneLegible(Text(if b then "true" else "false"));
      case Number(text) => NumbersSilent(text); OneLegible(Text(text));
      case Str(s) => OneLegible(Value(s));
      case Obj(fields) =>
        FieldsLegible(v, keys, |fields|);
        BracketsLegible("{", FieldPieces(v, |fields|), "}");
      case Arr(items) =>
        if Columnar(v) {
          ColumnsLegible(v, keys, |Columns(v)|);
          BracketsLegible("{", ColumnPieces(v, |Columns(v)|), "}");
        } else {
          ItemsLegible(v, keys, |items|);
          BracketsLegible("[", ItemPieces(v, |items|), "]");
        }
    }
  }

  lemma WordsSilent()
    ensures Silent("null") && Silent("true") && Silent("false")
  {
  }

  lemma {:induction false} FieldsLegible(v: Json, keys: set<string>, i: nat)
    requires v.Obj? && i <= |v.fields| && Keyed(v, keys) && AllSilent(keys)
    ensures Legible(FieldPieces(v, i))
    decreases v, 1, i
  {
    hide Legible, Pieces, Silent, IsNullish, NumberText;
    if i == 0 {
      NothingLegible();
    } else {
      FieldsLegible(v, keys, i - 1);
      var (key, val) := v.fields[i - 1];
      if !IsNullish(val) {
        var before := FieldPieces(v, i - 1);
        KeyFollows(before, before != [], key, ":");
        PiecesLegible(val, keys);
        Joins(before + Comma(before != []) + [Text(key), Text(":")], Pieces(val));
      }
    }
  }

  lemma NothingLegible()
    ensures Legible([])
  {
  }

  lemma {:induction false} ItemsLegible(v: Json, keys: set<string>, i: nat)
    requires v.Arr? && i <= |v.items| && Keyed(v, keys) && AllSilent(keys)
    ensures Legible(ItemPieces(v, i))
    decreases v, 1, i
  {
    hide Legible, Pieces, AllSilent, IsNullish, NumberText;
    if i == 0 {
      NothingLegible();
    } else {
      ItemsLegible(v, keys, i - 1);
      CommaFollows(ItemPieces(v, i - 1), i > 1);
      PiecesLegible(v.items[i - 1], keys);
      Joins(ItemPieces(v, i - 1) + Comma(i > 1), Pieces(v.items[i - 1]));
    }
  }

  lemma {:induction false} ColumnsLegible(v: Json, keys: set<string>, ki: nat)
    requires Columnar(v) && ki <= |Columns(v)| && Keyed(v, keys) && AllSilent(keys)
    ensures Legible(ColumnPieces(v, ki))
    decreases v, 2, ki
  {
    hide Legible, CellPieces, Silent, AllKeys;
    if ki == 0 {
      NothingLegible();
    } else {
      ColumnsLegible(v, keys, ki - 1);
      var key := Columns(v)[ki - 1];
      ColumnKeyed(v, keys, key);
      var before := ColumnPieces(v, ki - 1);
      KeyFollows(before, ki > 1, key, ":[");
      CellsLegible(v, keys, key, |v.items|);
      Joins(before + Comma(ki > 1) + [Text(key), Text(":[")], CellPieces(v, key, |v.items|));
      BracketFollows(before + Comma(ki > 1) + [Text(key), Text(":[")] + CellPieces(v, key, |v.items|));
    }
  }

  lemma ColumnKeyed(v: Json, keys: set<string>, key: string)
    requires Columnar(v) && key in Columns(v) && Keyed(v, keys)
    ensures key in keys
  {
    assert key in AllKeys(v.items);
    var i :| 0 <= i < |v.items| && key in KeysOf(v.items[i].fields);
    assert Keyed(v.items[i], keys);
  }

  lemma {:induction false} CellsLegible(v: Json, keys: set<string>, key: string, i: nat)
    requires Columnar(v) && i <= |v.items| && Keyed(v, keys) && AllSilent(keys)
    ensures Legible(CellPieces(v, key, i))
    decreases v, 1, i
  {
    hide Legible, Pieces, AllSilent, IsNullish, NumberText, AllKeys;
    if i == 0 {
      NothingLegible();
    } else {
      CellsLegible(v, keys, key, i - 1);
      var before := CellPieces(v, key, i - 1) + Comma(i > 1);
      CommaFollows(CellPieces(v, key, i - 1), i > 1);
      var fields := v.items[i - 1].fields;
      var at := FieldAt(fields, key);
      if at.Some? && !IsNullish(fields[at.value].1) {
        assert Keyed(v.items[i - 1], keys);
        PiecesLegible(fields[at.value].1, keys);
        Joins(before, Pieces(fields[at.value].1));
      }
    }
  }

  // ----- what the text determines -----

  /** Reading what was written for a value gives its strings, in order. */
  predicate ReadsBack(v: Json)
  {
    ReadStrings(Crushed(v), []) == Some(Traversed(v))
  }

  /** When no written key has a quote or a tilde, the text reads back. */
  lemma CrushedStringsDecode(v: Json, keys: set<string>)
    requires Keyed(v, keys) && AllSilent(keys)
    ensures ReadsBack(v)
  {
    hide Pieces, Keyed, AllSilent, Coded, Render, Strings, ReadStrings, Legible, Traversed;
    PiecesLegible(v, keys);
    NothingNumbered();
    TraversedIsWritten(v);
    LegibleReads(Pieces(v), map[], []);
  }

  /** So nothing but empty strings is lost: what is read are the strings under no nullish field, and of any
      string that is not empty as many as the value holds anywhere. */
  lemma NoStringLost(v: Json, keys: set<string>, s: string)
    requires Parsed(v) && Keyed(v, keys) && AllSilent(keys)
    ensures var read := ReadStrings(Crushed(v), []);
            && read.Some? && multiset(read.value) == Kept(v)
            && (s != "" ==> multiset(read.value)[s] == Leaves(v)[s])
  {
    hide Parsed, Keyed, AllSilent, Crushed, ReadStrings, Traversed, Kept, Leaves;
    CrushedStringsDecode(v, keys);
    TraversedIsKept(v);
    if s != "" {
      OnlyEmptyStringsLost(v, s);
    }
  }

  lemma WrittenAsOneText(v: Json, t: string)
    requires Pieces(v) == [Text(t)]
    ensures Crushed(v) == t
  {
    hide After, Pieces, Crushed;
    OneText("", map[], t);
    WrittenAfter(v);
    assert "" + t == t;
  }

  /** What is no string and no collection is written as it is. */
  lemma ScalarsWritten(b: bool, n: string)
    ensures Crushed(Null) == "null" && Crushed(Number(n)) == n
    ensures Crushed(Bool(b)) == if b then "true" else "false"
  {
    hide After, Crushed;
    WrittenAsOneText(Null, "null");
    WrittenAsOneText(Number(n), n);
    WrittenAsOneText(Bool(b), if b then "true" else "false");
  }

  /** Some field of the object is written. */
  predicate Speaks(v: Json)
  {
    v.Obj? && exists j :: 0 <= j < |v.fields| && !IsNullish(v.fields[j].1)
  }

  lemma SpeakingKeys(items: seq<Json>)
    requires forall i | 0 <= i < |items| :: items[i].Obj?
    ensures AllKeys(items) != {} <==> exists i :: 0 <= i < |items| && Speaks(items[i])
  {
    if i :| 0 <= i < |items| && Speaks(items[i]) {
      var j :| 0 <= j < |items[i].fields| && !IsNullish(items[i].fields[j].1);
      assert items[i].fields[j].0 in KeysOf(items[i].fields);
      assert items[i].fields[j].0 in AllKeys(items);
    }
    if k :| k in AllKeys(items) {
      var i :| 0 <= i < |items| && k in KeysOf(items[i].fields);
      assert Speaks(items[i]);
    }
  }

  lemma WrittenFirst(v: Json, t: string, rest: seq<Piece>)
    requires Pieces(v) == [Text(t)] + rest
    ensures t <= Crushed(v)
  {
    hide Pieces, Crushed, Coded;
    WrittenAfter(v);
    AfterBoth("", map[], [Text(t)], rest);
    OneText("", map[], t);
    assert "" + t == t;
  }

  /** An array is written in columns exactly if it has items, all of them objects, one with a field to
      write; any other goes in brackets, item by item. */
  lemma ColumnsExactly(items: seq<Json>)
    ensures var columns := && items != [] && (forall i | 0 <= i < |items| :: items[i].Obj?)
                           && exists i :: 0 <= i < |items| && Speaks(items[i]);
            (if columns then "{" else "[") <= Crushed(Arr(items))
  {
    hide AllKeys, Speaks, Crushed, ColumnPieces, ItemPieces;
    var v := Arr(items);
    if forall i | 0 <= i < |items| :: items[i].Obj? {
      SpeakingKeys(items);
    }
    if Columnar(v) {
      var rest := ColumnPieces(v, |Columns(v)|) + [Text("}")];
      assert Pieces(v) == [Text("{")] + rest;
      WrittenFirst(v, "{", rest);
    } else {
      var rest := ItemPieces(v, |items|) + [Text("]")];
      assert Pieces(v) == [Text("[")] + rest;
      WrittenFirst(v, "[", rest);
    }
  }

  /** So two such values written alike hold the same strings. */
  lemma SameTextSameStrings(v: Json, w: Json, keys: set<string>)
    requires Keyed(v, keys) && Keyed(w, keys) && AllSilent(keys) && Crushed(v) == Crushed(w)
    ensures Traversed(v) == Traversed(w)
  {
    hide Keyed, AllSilent, Crushed, Traversed, ReadStrings;
    CrushedStringsDecode(v, keys);
    CrushedStringsDecode(w, keys);
  }

  /** The reader finds nothing exactly in silent text. */
  lemma {:induction false} SilentExactly(t: string, literals: seq<string>)
    ensures ReadStrings(t, literals) == Some([]) <==> Silent(t)
    decreases |t|
  {
    hide ParseString, ReadDecimal;
    if t == [] {
    } else {
      assert t == [t[0]] + t[1..];
      if t[0] != '\"' && t[0] != '~' {
        SilentExactly(t[1..], literals);
      }
    }
  }

  /** The condition on keys is exact: every value over these keys reads back if and only if each of the
      keys is free of quotes and tildes. */
  lemma KeysReadBackExactly(keys: set<string>)
    ensures (forall v: Json | Keyed(v, keys) :: ReadsBack(v)) <==> AllSilent(keys)
  {
    hide Keyed, ReadsBack, Silent;
    if AllSilent(keys) {
      forall v: Json | Keyed(v, keys)
        ensures ReadsBack(v)
      {
        CrushedStringsDecode(v, keys);
      }
    } else {
      var k :| k in keys && !Silent(k);
      KeyAlone(k, keys);
    }
  }

  /** A value that does not read back when its one key has a quote or a tilde. */
  lemma KeyAlone(k: string, keys: set<string>)
    requires k in keys
    ensures var v := Obj([(k, Number("1"))]); Keyed(v, keys) && (ReadsBack(v) <==> Silent(k))
  {
    hide ReadStrings, Crushed, Traversed;
    var v := Obj([(k, Number("1"))]);
    assert Keyed(v.fields[0].1, keys);
    NumberField(k, "1");
    SilentExactly(Crushed(v), []);
    WrappedSilent(k);
  }

  lemma WrappedSilent(k: string)
    ensures Silent("{" + k + ":" + "1" + "}") <==> Silent(k)
  {
    var t := "{" + k + ":" + "1" + "}";
    if Silent(t) {
      forall c | c in k
        ensures c != '\"' && c != '~'
      {
        assert c in t;
      }
    }
  }

  // ----- small objects, written out -----

  lemma WrittenAfter(v: Json)
    ensures Crushed(v) == After("", map[], Pieces(v)).0
  {
    hide Pieces, Coded;
    assert "" + Crushed(v) == Crushed(v);
  }

  /** The pieces of an object up to its first `i` fields. */
  function Opened(v: Json, i: nat): seq<Piece>
    requires v.Obj? && i <= |v.fields|
  {
    [Text("{")] + FieldPieces(v, i)
  }

  lemma NothingOpened(v: Json)
    requires v.Obj?
    ensures After("", map[], Opened(v, 0)) == ("{", map[]) && Strings(Opened(v, 0)) == [] && FieldPieces(v, 0) == []
  {
    hide After, Strings;
    OneText("", map[], "{");
    NoFields(v);
    NoValues([Text("{")]);
    assert [Text("{")] + [] == [Text("{")] && "" + "{" == "{";
  }

  /** One more field: a comma unless it is the first, the key, a colon, the value. */
  lemma FieldWritten(v: Json, i: nat)
    requires v.Obj? && i < |v.fields| && !IsNullish(v.fields[i].1)
    ensures var (key, val) := v.fields[i];
            var (mid, m) := After("", map[], Opened(v, i));
            After("", map[], Opened(v, i + 1))
            == After(mid + (if FieldPieces(v, i) != [] then "," else "") + key + ":", m, Pieces(val))
    ensures Strings(Opened(v, i + 1)) == Strings(Opened(v, i)) + Strings(Pieces(v.fields[i].1))
    ensures FieldPieces(v, i + 1) != []
  {
    hide After, Strings, Pieces, IsNullish, FieldPieces;
    var (key, val) := v.fields[i];
    var written := FieldPieces(v, i) != [];
    var p := Opened(v, i) + Comma(written);
    FieldStep(v, i, [Text("{")], written);
    CommaWritten(Opened(v, i), written);
    PushText("", map[], p, key);
    PushText("", map[], p + [Text(key)], ":");
    var r := p + ([Text(key)] + [Text(":")]);
    assert p + [Text(key)] + [Text(":")] == r;
    AfterBoth("", map[], r, Pieces(val));
    StringsBoth(r, Pieces(val));
    NoValues([Text(key)] + [Text(":")]);
    StringsBoth(p, [Text(key)] + [Text(":")]);
  }

  lemma CommaWritten(p: seq<Piece>, needed: bool)
    ensures var (mid, m) := After("", map[], p);
            After("", map[], p + Comma(needed)) == (mid + (if needed then "," else ""), m)
    ensures Strings(p + Comma(needed)) == Strings(p)
  {
    hide After, Strings;
    StringsBoth(p, Comma(needed));
    NoValues(Comma(needed));
    if needed {
      PushText("", map[], p, ",");
    } else {
      assert p + Comma(needed) == p;
      assert After("", map[], p).0 + "" == After("", map[], p).0;
    }
  }

  lemma ObjectWritten(v: Json)
    requires v.Obj?
    ensures Crushed(v) == After("", map[], Opened(v, |v.fields|)).0 + "}"
    ensures Traversed(v) == Strings(Opened(v, |v.fields|))
  {
    hide After, Strings, FieldPieces, Crushed, Traversed;
    TraversedIsWritten(v);
    WrittenAfter(v);
    PushText("", map[], Opened(v, |v.fields|), "}");
    StringsBoth(Opened(v, |v.fields|), [Text("}")]);
    NoValues([Text("}")]);
    assert Pieces(v) == Opened(v, |v.fields|) + [Text("}")];
  }

  lemma NumberWritten(out: string, seen: map<string, nat>, n: string)
    ensures After(out, seen, Pieces(Number(n))) == (out + n, seen) && Strings(Pieces(Number(n))) == []
  {
    hide After, Strings;
    OneText(out, seen, n);
    NoValues([Text(n)]);
  }

  lemma StringWritten(out: string, seen: map<string, nat>, s: string)
    ensures After(out, seen, Pieces(Str(s)))
            == if s in seen then (out + RenderChunk(Ref(seen[s])), seen)
               else (out + RenderChunk(Lit(s)), seen[s := |seen|])
    ensures Strings(Pieces(Str(s))) == [s]
  {
    hide After, RenderChunk;
    AfterNothing(out, seen);
    AfterOne(out, seen, [], Value(s));
    assert [] + [Value(s)] == [Value(s)];
    assert [Value(s)][..0] == [];
  }

  /** An object of one field. */
  lemma OneField(k: string, x: Json)
    requires !IsNullish(x)
    ensures var v := Obj([(k, x)]);
            && Crushed(v) == After("{" + k + ":", map[], Pieces(x)).0 + "}"
            && Traversed(v) == Traversed(x)
  {
    hide After, FieldPieces, IsNullish, Crushed, Strings, Opened, Pieces, Traversed;
    var v := Obj([(k, x)]);
    TraversedIsWritten(x);
    NothingOpened(v);
    FieldWritten(v, 0);
    ObjectWritten(v);
    assert "{" + "" + k + ":" == "{" + k + ":";
  }

  /** An object of two fields, the second a number. */
  lemma TwoFields(k: string, x: Json, l: string, n: string)
    requires !IsNullish(x)
    ensures var v := Obj([(k, x), (l, Number(n))]);
            && Crushed(v) == After("{" + k + ":", map[], Pieces(x)).0 + "," + l + ":" + n + "}"
            && Traversed(v) == Traversed(x)
  {
    hide After, FieldPieces, Crushed, Strings, Opened, Pieces, Traversed;
    var v := Obj([(k, x), (l, Number(n))]);
    TraversedIsWritten(x);
    NothingOpened(v);
    FieldWritten(v, 0);
    assert "{" + "" + k + ":" == "{" + k + ":";
    var (mid, m) := After("{" + k + ":", map[], Pieces(x));
    FieldWritten(v, 1);
    NumberWritten(mid + "," + l + ":", m, n);
    ObjectWritten(v);
  }

  lemma NumberField(k: string, n: string)
    ensures var v := Obj([(k, Number(n))]); Crushed(v) == "{" + k + ":" + n + "}" && Traversed(v) == []
  {
    hide After, Crushed, Strings, Pieces;
    OneField(k, Number(n));
    NumberWritten("{" + k + ":", map[], n);
  }

  // ----- what the text does not determine -----

  /** The text of two fields is that of one field of a longer key. */
  lemma LongKey(k: string, e: string, l: string, n: string)
    ensures "{" + k + ":" + e + "," + l + ":" + n + "}" == "{" + (k + ":" + e + "," + l) + ":" + n + "}"
  {
    assert "{" + k + ":" + e + "," + l == "{" + (k + ":" + e + "," + l);
  }

  /** Keys are not escaped: one long key is written as a field with a string and the key after it, and
      hides the string. */
  lemma KeysHideStrings(k: string, s: string, l: string, n: string)
    requires s != ""
    ensures var long := k + ":" + ("\"" + Escape(s) + "\"") + "," + l;
            var v, w := Obj([(k, Str(s)), (l, Number(n))]), Obj([(long, Number(n))]);
            Crushed(v) == Crushed(w) && Traversed(v) == [s] && Traversed(w) == []
  {
    hide After, Crushed, Strings, Escape, Pieces, RenderChunk;
    var e := RenderChunk(Lit(s));
    LiteralText(s);
    TwoFields(k, Str(s), l, n);
    StringWritten("{" + k + ":", map[], s);
    NumberField(k + ":" + e + "," + l, n);
    LongKey(k, e, l, n);
  }

  lemma LiteralText(s: string)
    ensures RenderChunk(Lit(s)) == "\"" + Escape(s) + "\""
  {
  }

  const LUCKY: string := ",c:~0,d"

  /** Between the quotes of the keys of this object the reader finds, by chance, the strings it holds. */
  const LUCKY_VALUE := Obj([("a", Str(LUCKY)), ("b\"", Str(":")), ("c", Str(LUCKY)), ("d\"", Number("1"))])

  /** So a single value may read back in spite of its keys: the exact condition is on the keys allowed. */
  lemma QuotedKeysMayReadBack()
    ensures ReadsBack(LUCKY_VALUE) && !Silent(LUCKY_VALUE.fields[1].0)
  {
    hide Crushed, Traversed, ReadStrings;
    LuckyWritten();
    LuckyCuts();
    LuckyReads();
  }

  /** What is written up to its first two fields. */
  function LuckyStart(): string
  {
    "{a:" + RenderChunk(Lit(LUCKY)) + ",b\":" + RenderChunk(Lit(":"))
  }

  lemma LuckyStarts()
    ensures After("", map[], Opened(LUCKY_VALUE, 2)) == (LuckyStart(), map[LUCKY := 0, ":" := 1])
    ensures Strings(Opened(LUCKY_VALUE, 2)) == [LUCKY, ":"] && FieldPieces(LUCKY_VALUE, 2) != []
  {
    hide After, FieldPieces, Strings, Opened, Pieces, RenderChunk;
    var v := LUCKY_VALUE;
    NothingOpened(v);
    FieldWritten(v, 0);
    StringWritten("{a:", map[], LUCKY);
    assert "{" + "" + "a" + ":" == "{a:";
    var t := "{a:" + RenderChunk(Lit(LUCKY));
    FieldWritten(v, 1);
    StringWritten(t + "," + "b\"" + ":", map[LUCKY := 0], ":");
    assert t + "," + "b\"" + ":" == t + ",b\":";
  }

  lemma LuckyWritten()
    ensures Traversed(LUCKY_VALUE) == [LUCKY, ":", LUCKY]
    ensures Crushed(LUCKY_VALUE) == LuckyStart() + ",c:" + RenderChunk(Ref(0)) + ",d\":1}"
  {
    hide After, FieldPieces, Crushed, Strings, Opened, Pieces, RenderChunk, LuckyStart;
    var v, u, m := LUCKY_VALUE, LuckyStart(), map[LUCKY := 0, ":" := 1];
    LuckyStarts();
    FieldWritten(v, 2);
    StringWritten(u + "," + "c" + ":", m, LUCKY);
    FieldWritten(v, 3);
    NumberWritten(u + "," + "c" + ":" + RenderChunk(Ref(0)) + "," + "d\"" + ":", m, "1");
    ObjectWritten(v);
    assert u + "," + "c" + ":" == u + ",c:";
    var w := u + ",c:" + RenderChunk(Ref(0));
    assert w + "," + "d\"" + ":" + "1" + "}" == w + ",d\":1}";
  }

  predicate IsPlain(c: char)
  {
    c != '\"' && c != '\\' && c as int >= 0x20
  }

  lemma PlainChar(c: char)
    requires IsPlain(c)
    ensures EscapeChar(c) == [c]
  {
  }

  lemma {:induction false} EscapePlain(s: string)
    requires forall i | 0 <= i < |s| :: IsPlain(s[i])
    ensures Escape(s) == s
  {
    hide EscapeChar, IsPlain;
    if s == [] {
    } else {
      var n := |s| - 1;
      EscapePlain(s[..n]);
      PlainChar(s[n]);
      assert s[..n] + [s[n]] == s;
    }
  }

  /** The same text, cut at the quotes. */
  function LuckyCut(): string
  {
    "{a:" + (RenderChunk(Lit(LUCKY)) + (",b" + (RenderChunk(Lit(":")) + (":" + (RenderChunk(Lit(LUCKY)) + ":1}")))))
  }

  lemma LuckyParts()
    ensures RenderChunk(Lit(LUCKY)) == "\"" + LUCKY + "\"" && RenderChunk(Lit(":")) == "\"" + ":" + "\""
    ensures RenderChunk(Ref(0)) == "~0" && LUCKY == ",c:" + "~0" + ",d"
    ensures ",b\":" == ",b" + ("\"" + ":") && ",d\":1}" == ",d" + ("\"" + ":1}")
  {
    hide Escape;
    EscapePlain(LUCKY);
    EscapePlain(":");
  }

  /** The same text with its quotes grouped in two ways. */
  lemma Regrouped(a: string, q: string, c: string, x: string, e: string)
    ensures a + (q + c) + (q + c + q) + x + (q + e) == a + ((q + c + q) + (c + ((q + x + q) + e)))
  {
    assert a + (q + c) + (q + c + q) == a + (q + c + q) + (c + q);
    assert a + (q + c + q) + (c + q) + x + (q + e) == a + (q + c + q) + (c + (q + x + q) + e);
  }

  lemma Flattened(h: string, b: string, c: string, x: string, y: string, z: string, e: string)
    ensures h + b + c + x + y + (z + e) == h + (b + c + (x + y + z) + e)
  {
    assert h + b + c == h + (b + c);
    assert h + (b + c) + x + y + (z + e) == h + (b + c) + (x + y + z) + e;
    assert h + (b + c) + (x + y + z) + e == h + (b + c + (x + y + z) + e);
  }

  lemma LuckyCuts()
    ensures LuckyStart() + ",c:" + RenderChunk(Ref(0)) + ",d\":1}" == LuckyCut()
  {
    hide RenderChunk;
    LuckyParts();
    var q, l, c := "\"", RenderChunk(Lit(LUCKY)), RenderChunk(Lit(":"));
    Flattened("{a:" + l, ",b" + (q + ":"), c, ",c:", "~0", ",d", q + ":1}");
    Regrouped(",b", q, ":", LUCKY, ":1}");
    assert "{a:" + l + (",b" + (c + (":" + (l + ":1}")))) == LuckyCut();
  }

  lemma LuckyReads()
    ensures ReadStrings(LuckyCut(), []) == Some([LUCKY, ":", LUCKY])
  {
    hide ReadStrings, RenderChunk;
    var last := [LUCKY, ":"];
    SilentSkips(":1}", "", last + [LUCKY]);
    assert ":1}" + "" == ":1}";
    NothingRead(last + [LUCKY]);
    LiteralReads(LUCKY, ":1}", last);
    var r := RenderChunk(Lit(LUCKY)) + ":1}";
    SilentSkips(":", r, last);
    LiteralReads(":", ":" + r, [LUCKY]);
    SilentSkips(",b", RenderChunk(Lit(":")) + (":" + r), [LUCKY]);
    LiteralReads(LUCKY, ",b" + (RenderChunk(Lit(":")) + (":" + r)), []);
    SilentSkips("{a:", RenderChunk(Lit(LUCKY)) + (",b" + (RenderChunk(Lit(":")) + (":" + r))), []);
    assert [LUCKY] + [":"] == last && [] + [LUCKY] == [LUCKY];
    assert [LUCKY] + ([":"] + ([LUCKY] + [])) == [LUCKY, ":", LUCKY];
  }

  /** Nor do silent keys tell two fields from one. */
  lemma KeysAreNotEscaped(k: string, m: string, l: string, n: string)
    ensures var v, w := Obj([(k, Number(m)), (l, Number(n))]), Obj([(k + ":" + m + "," + l, Number(n))]);
            Crushed(v) == Crushed(w) && v != w
  {
    hide After, Crushed, Traversed, Pieces;
    var v, w := Obj([(k, Number(m)), (l, Number(n))]), Obj([(k + ":" + m + "," + l, Number(n))]);
    assert |v.fields| != |w.fields|;
    TwoFields(k, Number(m), l, n);
    NumberWritten("{" + k + ":", map[], m);
    var long := k + ":" + m + "," + l;
    NumberField(long, n);
    LongKey(k, m, l, n);
  }

  /** One object a value, under one key. */
  function Rows(k: string, xs: seq<Json>): seq<Json>
  {
    seq(|xs|, i requires 0 <= i < |xs| => Obj([(k, xs[i])]))
  }

  lemma RowsAreColumnar(k: string, xs: seq<Json>)
    requires xs != [] && forall x | x in xs :: !IsNullish(x)
    ensures var v := Arr(Rows(k, xs)); Columnar(v) && Columns(v) == [k]
  {
    hide IsNullish;
    var v := Arr(Rows(k, xs));
    forall i | 0 <= i < |xs|
      ensures KeysOf(v.items[i].fields) == {k}
    {
      assert v.items[i].fields[0] == (k, xs[i]) && xs[i] in xs;
    }
    assert k in KeysOf(v.items[0].fields);
    assert AllKeys(v.items) == {k};
    SortedOne(k);
  }

  lemma SortedOne(k: string)
    ensures Sorted({k}) == [k]
  {
    assert First({k}) == k;
    assert {k} - {k} == {};
  }

  lemma OnlyField(k: string, x: Json)
    ensures FieldAt([(k, x)], k) == Some(0)
  {
  }

  lemma {:induction false} CellsAreItems(k: string, xs: seq<Json>, i: nat)
    requires xs != [] && (forall x | x in xs :: !IsNullish(x)) && i <= |xs| && Columnar(Arr(Rows(k, xs)))
    ensures CellPieces(Arr(Rows(k, xs)), k, i) == ItemPieces(Arr(xs), i)
  {
    hide Pieces, IsNullish, Columnar;
    if i == 0 {
    } else {
      CellsAreItems(k, xs, i - 1);
      var fields := [(k, xs[i - 1])];
      assert Rows(k, xs)[i - 1].fields == fields && xs[i - 1] in xs;
      OnlyField(k, xs[i - 1]);
    }
  }

  /** A column is written as a field with an array: the text does not tell `[{k:x},{k:y}]` from `{k:[x,y]}`,
      whatever the key and the values. */
  lemma ColumnsLookLikeFields(k: string, xs: seq<Json>)
    requires xs != [] && (forall x | x in xs :: !IsNullish(x)) && !Columnar(Arr(xs))
    ensures Crushed(Arr(Rows(k, xs))) == Crushed(Obj([(k, Arr(xs))]))
  {
    hide After, Crushed, ItemPieces, CellPieces, IsNullish, Columnar, Columns;
    var v := Arr(Rows(k, xs));
    RowsAreColumnar(k, xs);
    CellsAreItems(k, xs, |xs|);
    var cells := ItemPieces(Arr(xs), |xs|);
    ColumnWritten(v, k, cells);
    assert Pieces(Arr(xs)) == [Text("[")] + cells + [Text("]")];
    ArrayKept(xs);
    OneField(k, Arr(xs));
    ArrayWritten("{" + k + ":", cells);
    assert "{" + k + ":" + "[" == "{" + k + ":[";
  }

  lemma ArrayKept(xs: seq<Json>)
    requires xs != []
    ensures !IsNullish(Arr(xs))
  {
  }

  lemma ColumnWritten(v: Json, k: string, cells: seq<Piece>)
    requires v.Arr? && Columnar(v) && Columns(v) == [k] && CellPieces(v, k, |v.items|) == cells
    ensures Crushed(v) == After("{" + k + ":[", map[], cells).0 + "]" + "}"
  {
    hide After, Crushed, CellPieces, Columnar, Columns;
    var open: seq<Piece> := [Text("{")] + [Text(k)] + [Text(":[")];
    assert ColumnPieces(v, 0) == [];
    assert ColumnPieces(v, 1) == [] + Comma(false) + [Text(k), Text(":[")] + cells + [Text("]")];
    assert Pieces(v) == open + cells + [Text("]")] + [Text("}")];
    OneText("", map[], "{");
    PushText("", map[], [Text("{")], k);
    PushText("", map[], [Text("{")] + [Text(k)], ":[");
    assert "" + "{" == "{";
    AfterBoth("", map[], open, cells);
    PushText("", map[], open + cells, "]");
    PushText("", map[], open + cells + [Text("]")], "}");
    WrittenAfter(v);
  }

  lemma ArrayWritten(out: string, cells: seq<Piece>)
    ensures After(out, map[], [Text("[")] + cells + [Text("]")]).0 == After(out + "[", map[], cells).0 + "]"
  {
    hide After;
    OneText(out, map[], "[");
    AfterBoth(out, map[], [Text("[")], cells);
    PushText(out, map[], [Text("[")] + cells, "]");
  }

  /** Nullish fields leave no trace. */
  lemma NullishLeavesNoTrace(fields: seq<(string, Json)>)
    requires forall i | 0 <= i < |fields| :: IsNullish(fields[i].1)
    ensures Crushed(Obj(fields)) == Crushed(Obj([]))
  {
    hide Coded, Render;
    NullishFields(Obj(fields), |fields|);
    assert Pieces(Obj(fields)) == Pieces(Obj([]));
  }

  /** A field is left out exactly if it is null or an empty string, array or object. */
  lemma OmittedExactly(key: string, v: Json)
    ensures Crushed(Obj([(key, v)])) == Crushed(Obj([])) <==> v in {Null, Str(""), Arr([]), Obj([])}
  {
    hide Crushed, After, Pieces, Strings, Traversed, FieldPieces;
    var one, none := Obj([(key, v)]), Obj([]);
    if IsNullish(v) {
      NullishLeavesNoTrace([(key, v)]);
    } else {
      ObjectWritten(one);
      ObjectWritten(none);
      NothingOpened(one);
      NothingOpened(none);
      FieldWritten(one, 0);
      OnlyLonger("{" + "" + key + ":", map[], Pieces(v));
    }
  }

  lemma OnlyLonger(out: string, seen: map<string, nat>, pieces: seq<Piece>)
    ensures |After(out, seen, pieces).0| >= |out|
  {
    hide Coded, Render;
  }

  lemma {:induction false} NullishFields(v: Json, i: nat)
    requires v.Obj? && i <= |v.fields| && forall j | 0 <= j < i :: IsNullish(v.fields[j].1)
    ensures FieldPieces(v, i) == []
  {
    if i == 0 {
    } else {
      NullishFields(v, i - 1);
    }
  }
}
