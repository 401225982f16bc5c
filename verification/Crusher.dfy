/** The JSON crusher: the layout it writes, the dictionary of repeated strings, and how both decode. */
module Crusher {
  import opened Options
  import opened Names
  import opened DecimalText

  /** A parsed JSON value; a number keeps its text. The keys of an object are distinct and ascending. */
  datatype Json =
    | Null
    | Bool(b: bool)
    | Number(text: string)
    | Str(s: string)
    | Arr(items: seq<Json>)
    | Obj(fields: seq<(string, Json)>)

  predicate IsNullish(v: Json)
  {
    match v
    case Null => true
    case Str(s) => s == ""
    case Arr(items) => items == []
    case Obj(fields) => fields == []
    case _ => false
  }

  // ----- the layout -----

  /** A stretch of output: fixed text, or a string value that the dictionary codes. */
  datatype Piece = Text(text: string) | Value(s: string)

  function KeysOf(fields: seq<(string, Json)>): set<string>
  {
    set i | 0 <= i < |fields| && !IsNullish(fields[i].1) :: fields[i].0
  }

  function AllKeys(items: seq<Json>): set<string>
    requires forall i | 0 <= i < |items| :: items[i].Obj?
  {
    set i, k | 0 <= i < |items| && k in KeysOf(items[i].fields) :: k
  }

  /** An array of objects with some key worth writing is laid out in columns. */
  predicate Columnar(v: Json)
  {
    && v.Arr? && v.items != [] && (forall i | 0 <= i < |v.items| :: v.items[i].Obj?)
    && AllKeys(v.items) != {}
  }

  function Columns(v: Json): seq<string>
    requires Columnar(v)
  {
    Sorted(AllKeys(v.items))
  }

  function FieldAt(fields: seq<(string, Json)>, key: string): (at: Option<nat>)
    ensures at.Some? ==> at.value < |fields| && fields[at.value].0 == key
    ensures at.Some? ==> forall i | at.value < i < |fields| :: fields[i].0 != key
    ensures at.None? ==> forall i | 0 <= i < |fields| :: fields[i].0 != key
  {
    if fields == [] then None
    else if fields[|fields| - 1].0 == key then Some(|fields| - 1)
    else FieldAt(fields[..|fields| - 1], key)
  }

  function Comma(needed: bool): seq<Piece>
  {
    if needed then [Text(",")] else []
  }

  /** The pieces of a value, in the order they are written. */
  function Pieces(v: Json): seq<Piece>
    decreases v, 3, 0
  {
    match v
    case Null => [Text("null")]
    case Bool(b) => [Text(if b then "true" else "false")]
    case Number(text) => [Text(text)]
    case Str(s) => [Value(s)]
    case Obj(fields) => [Text("{")] + FieldPieces(v, |fields|) + [Text("}")]
    case Arr(items) =>
      if Columnar(v) then [Text("{")] + ColumnPieces(v, |Columns(v)|) + [Text("}")]
      else [Text("[")] + ItemPieces(v, |items|) + [Text("]")]
  }

  /** The first `i` fields, without the nullish ones. */
  function FieldPieces(v: Json, i: nat): seq<Piece>
    requires v.Obj? && i <= |v.fields|
    decreases v, 1, i
  {
    if i == 0 then []
    else
      var before := FieldPieces(v, i - 1);
      var (key, val) := v.fields[i - 1];
      if IsNullish(val) then before
      else before + Comma(before != []) + [Text(key), Text(":")] + Pieces(val)
  }

  function ItemPieces(v: Json, i: nat): seq<Piece>
    requires v.Arr? && i <= |v.items|
    decreases v, 1, i
  {
    if i == 0 then [] else ItemPieces(v, i - 1) + Comma(i > 1) + Pieces(v.items[i - 1])
  }

  function ColumnPieces(v: Json, ki: nat): seq<Piece>
    requires Columnar(v) && ki <= |Columns(v)|
    decreases v, 2, ki
  {
    if ki == 0 then []
    else
      var key := Columns(v)[ki - 1];
      ColumnPieces(v, ki - 1) + Comma(ki > 1) + [Text(key), Text(":[")] + CellPieces(v, key, |v.items|) + [Text("]")]
  }

  /** A column: one cell an item, empty where the item has nothing to say. */
  function CellPieces(v: Json, key: string, i: nat): seq<Piece>
    requires Columnar(v) && i <= |v.items|
    decreases v, 1, i
  {
    if i == 0 then []
    else
      var before := CellPieces(v, key, i - 1) + Comma(i > 1);
      var fields := v.items[i - 1].fields;
      var at := FieldAt(fields, key);
      if at.Some? && !IsNullish(fields[at.value].1) then before + Pieces(fields[at.value].1) else before
  }

  // ----- the dictionary -----

  datatype Chunk = Raw(text: string) | Lit(s: string) | Ref(n: nat)

  /** The chunk a piece becomes, and the dictionary after it: a string seen before is written as its number. */
  function CodedPiece(x: Piece, seen: map<string, nat>): (Chunk, map<string, nat>)
  {
    match x
    case Text(t) => (Raw(t), seen)
    case Value(s) => if s in seen then (Ref(seen[s]), seen) else (Lit(s), seen[s := |seen|])
  }

  function Coded(pieces: seq<Piece>, seen: map<string, nat>): (seq<Chunk>, map<string, nat>)
  {
    if pieces == [] then ([], seen)
    else
      var n := |pieces| - 1;
      var (chunks, m) := Coded(pieces[..n], seen);
      var (c, m') := CodedPiece(pieces[n], m);
      (chunks + [c], m')
  }

  /** The string values among the pieces. */
  function Strings(pieces: seq<Piece>): seq<string>
  {
    if pieces == [] then []
    else
      var last := pieces[|pieces| - 1];
      Strings(pieces[..|pieces| - 1]) + if last.Value? then [last.s] else []
  }

  /** A reader of the chunks: the string values, and the literals so far by number; none if a
      reference points nowhere. */
  function Decoded(chunks: seq<Chunk>): Option<(seq<string>, seq<string>)>
  {
    if chunks == [] then Some(([], []))
    else
      match Decoded(chunks[..|chunks| - 1])
      case None => None
      case Some((values, literals)) =>
        match chunks[|chunks| - 1]
        case Raw(_) => Some((values, literals))
        case Lit(s) => Some((values + [s], literals + [s]))
        case Ref(n) => if n < |literals| then Some((values + [literals[n]], literals)) else None
  }

  /** The literals written so far are the strings seen, each once, at their numbers. */
  ghost predicate Numbered(seen: map<string, nat>, literals: seq<string>)
  {
    && |literals| == |seen|
    && (forall s :: s in literals <==> s in seen)
    && (forall s | s in seen :: seen[s] < |literals| && literals[seen[s]] == s)
    && forall i, j | 0 <= i < j < |literals| :: literals[i] != literals[j]
  }

  lemma NumberedGrows(seen: map<string, nat>, literals: seq<string>, s: string)
    requires Numbered(seen, literals) && s !in seen
    ensures Numbered(seen[s := |seen|], literals + [s])
  {
  }

  /** The literals and references decode to the original string values in order, and no string is
      written out twice. */
  lemma {:induction false} DictionaryRoundTrip(pieces: seq<Piece>)
    ensures var (chunks, seen) := Coded(pieces, map[]);
            && Decoded(chunks).Some?
            && Decoded(chunks).value.0 == Strings(pieces)
            && Numbered(seen, Decoded(chunks).value.1)
  {
    hide Numbered, Coded, Decoded;
    if pieces != [] {
      var n := |pieces| - 1;
      DictionaryRoundTrip(pieces[..n]);
      var (before, seen) := Coded(pieces[..n], map[]);
      var literals := Decoded(before).value.1;
      CodedStep(pieces[..n], pieces[n], map[]);
      assert pieces[..n] + [pieces[n]] == pieces;
      match pieces[n] {
        case Text(t) =>
          DecodedStep(before, Raw(t));
        case Value(s) =>
          if s in seen {
            SeenAt(seen, literals, s);
            DecodedStep(before, Ref(seen[s]));
          } else {
            NumberedGrows(seen, literals, s);
            DecodedStep(before, Lit(s));
          }
      }
    } else {
      NothingNumbered();
    }
  }

  lemma CodedStep(p: seq<Piece>, x: Piece, seen: map<string, nat>)
    ensures var (chunks, m) := Coded(p, seen);
            var (c, m') := CodedPiece(x, m);
            Coded(p + [x], seen) == (chunks + [c], m')
  {
    hide CodedPiece;
    assert (p + [x])[..|p|] == p;
  }

  lemma DecodedStep(chunks: seq<Chunk>, x: Chunk)
    requires Decoded(chunks).Some?
    ensures var (values, literals) := Decoded(chunks).value;
            Decoded(chunks + [x]) == match x
                                     case Raw(_) => Some((values, literals))
                                     case Lit(s) => Some((values + [s], literals + [s]))
                                     case Ref(n) => if n < |literals|
                                                     then Some((values + [literals[n]], literals)) else None
  {
    assert (chunks + [x])[..|chunks|] == chunks;
  }

  lemma SeenAt(seen: map<string, nat>, literals: seq<string>, s: string)
    requires Numbered(seen, literals) && s in seen
    ensures seen[s] < |literals| && literals[seen[s]] == s
  {
  }

  lemma NothingNumbered()
    ensures Coded([], map[]) == ([], map[]) && Decoded([]) == Some(([], [])) && Numbered(map[], [])
  {
  }

  // ----- the text -----

  function HexDigit(n: nat): char
    requires n < 16
  {
    "0123456789abcdef"[n]
  }

  function EscapeChar(c: char): string
  {
    if c == '\"' then "\\\""
    else if c == '\\' then "\\\\"
    else if c == '\n' then "\\n"
    else if c == '\r' then "\\r"
    else if c == '\t' then "\\t"
    else if c as int < 0x20 then ['\\', 'u', '0', '0', HexDigit(c as int / 16), HexDigit(c as int % 16)]
    else [c]
  }

  function Escape(s: string): string
  {
    if s == [] then [] else Escape(s[..|s| - 1]) + EscapeChar(s[|s| - 1])
  }

  function HexValue(c: char): Option<nat>
  {
    if '0' <= c <= '9' then Some(c as int - '0' as int)
    else if 'a' <= c <= 'f' then Some(c as int - 'a' as int + 10)
    else if 'A' <= c <= 'F' then Some(c as int - 'A' as int + 10)
    else None
  }

  function CodePoint(t: string): Option<char>
    requires |t| == 4
  {
    match (HexValue(t[0]), HexValue(t[1]), HexValue(t[2]), HexValue(t[3]))
    case (Some(a), Some(b), Some(c), Some(d)) =>
      var n := a * 4096 + b * 256 + c * 16 + d;
      if n < 0xD800 || 0xE000 <= n < 0x1_0000 then Some(n as char) else None
    case _ => None
  }

  /** A reader of the string grammar (section 7 of RFC 8259), from after the opening quote: the string
      and what follows the closing quote. Surrogate pairs are not read. */
  function ParseString(t: string): (r: Option<(string, string)>)
    ensures r.Some? ==> |r.value.1| < |t|
  {
    if t == [] then None
    else if t[0] == '\"' then Some(([], t[1..]))
    else if t[0] == '\\' then
      if |t| < 2 then None
      else if t[1] == 'u' then
        if |t| < 6 then None
        else
          match CodePoint(t[2..6])
          case None => None
          case Some(c) => Then(c, ParseString(t[6..]))
      else
        match Unescaped(t[1])
        case None => None
        case Some(c) => Then(c, ParseString(t[2..]))
    else if t[0] as int < 0x20 then None
    else Then(t[0], ParseString(t[1..]))
  }

  function Then(c: char, rest: Option<(string, string)>): Option<(string, string)>
  {
    match rest
    case None => None
    case Some((s, tail)) => Some(([c] + s, tail))
  }

  function Unescaped(c: char): Option<char>
  {
    if c == '\"' || c == '\\' || c == '/' then Some(c)
    else if c == 'n' then Some('\n')
    else if c == 'r' then Some('\r')
    else if c == 't' then Some('\t')
    else if c == 'b' then Some(8 as char)
    else if c == 'f' then Some(12 as char)
    else None
  }

  lemma {:induction false} EscapeSplits(a: string, b: string)
    ensures Escape(a + b) == Escape(a) + Escape(b)
  {
    hide EscapeChar;
    if b == [] {
      assert a + b == a;
    } else {
      var n := |b| - 1;
      assert (a + b)[..|a| + n] == a + b[..n];
      EscapeSplits(a, b[..n]);
    }
  }

  lemma EscapedCharParses(c: char, rest: string)
    ensures ParseString(EscapeChar(c) + rest) == Then(c, ParseString(rest))
  {
    hide ParseString, Then;
    var e := EscapeChar(c);
    if |e| == 1 {
      PlainCharParses(c, rest);
    } else if |e| == 2 {
      ShortEscapeParses(e[1], c, rest);
      assert e == ['\\', e[1]];
    } else {
      LongEscapeParses(c, rest);
    }
  }

  lemma PlainCharParses(c: char, rest: string)
    requires c != '\"' && c != '\\' && c as int >= 0x20
    ensures ParseString([c] + rest) == Then(c, ParseString(rest))
  {
    assert ([c] + rest)[1..] == rest;
  }

  lemma ShortEscapeParses(x: char, c: char, rest: string)
    requires x != 'u' && Unescaped(x) == Some(c)
    ensures ParseString(['\\', x] + rest) == Then(c, ParseString(rest))
  {
    hide Unescaped;
    assert (['\\', x] + rest)[2..] == rest;
  }

  lemma LongEscapeParses(c: char, rest: string)
    requires c as int < 0x20
    ensures var e := ['\\', 'u', '0', '0', HexDigit(c as int / 16), HexDigit(c as int % 16)];
            ParseString(e + rest) == Then(c, ParseString(rest))
  {
    hide HexDigit, CodePoint;
    HexParses(c);
    var e := ['\\', 'u', '0', '0', HexDigit(c as int / 16), HexDigit(c as int % 16)];
    assert (e + rest)[2..6] == e[2..] && (e + rest)[6..] == rest;
    assert e[2..] == ['0', '0', HexDigit(c as int / 16), HexDigit(c as int % 16)];
  }

  lemma HexParses(c: char)
    requires c as int < 0x20
    ensures CodePoint(['0', '0', HexDigit(c as int / 16), HexDigit(c as int % 16)]) == Some(c)
  {
    HexDigitValue(c as int / 16);
    HexDigitValue(c as int % 16);
  }

  lemma HexDigitValue(n: nat)
    requires n < 16
    ensures HexValue(HexDigit(n)) == Some(n)
  {
  }

  /** Quotes, backslashes and the common controls take two characters, other controls six; everything else
      stands for itself. */
  lemma EscapesShort(c: char)
    ensures |EscapeChar(c)| == 1 <==> c != '\"' && c != '\\' && c as int >= 0x20
    ensures |EscapeChar(c)| == 2 <==> c in "\"\\\n\r\t"
    ensures |EscapeChar(c)| in {1, 2, 6}
    ensures if |EscapeChar(c)| == 1 then EscapeChar(c) == [c] else EscapeChar(c)[0] == '\\'
  {
  }

  /** Parsing what escaping wrote, up to the closing quote, gives the string back and leaves any tail. */
  lemma {:induction false} EscapeRoundTrip(s: string, tail: string)
    ensures ParseString(Escape(s) + "\"" + tail) == Some((s, tail))
  {
    hide EscapeChar, Escape;
    if s == [] {
      EscapeNothing();
      assert Escape(s) + "\"" + tail == "\"" + tail;
    } else {
      EscapeSplits([s[0]], s[1..]);
      EscapeOne(s[0]);
      assert [s[0]] + s[1..] == s;
      EscapeRoundTrip(s[1..], tail);
      EscapedCharParses(s[0], Escape(s[1..]) + "\"" + tail);
      assert Escape(s) + "\"" + tail == EscapeChar(s[0]) + (Escape(s[1..]) + "\"" + tail);
    }
  }

  lemma EscapeNothing()
    ensures Escape([]) == []
  {
  }

  lemma EscapeOne(c: char)
    ensures Escape([c]) == EscapeChar(c)
  {
    assert [c][..0] == [];
  }

  function RenderChunk(c: Chunk): string
  {
    match c
    case Raw(t) => t
    case Lit(s) => "\"" + Escape(s) + "\""
    case Ref(n) => "~" + Decimal(n)
  }

  function Render(chunks: seq<Chunk>): string
  {
    if chunks == [] then [] else Render(chunks[..|chunks| - 1]) + RenderChunk(chunks[|chunks| - 1])
  }

  /** The text written for a value. */
  function Crushed(v: Json): string
  {
    Render(Coded(Pieces(v), map[]).0)
  }

  // ----- writing it -----

  /** What has been written and seen after more pieces. */
  function After(out: string, seen: map<string, nat>, pieces: seq<Piece>): (string, map<string, nat>)
  {
    var (chunks, m) := Coded(pieces, seen);
    (out + Render(chunks), m)
  }

  lemma {:induction false} AfterBoth(out: string, seen: map<string, nat>, p: seq<Piece>, q: seq<Piece>)
    ensures var (mid, m) := After(out, seen, p);
            After(out, seen, p + q) == After(mid, m, q)
  {
    hide After;
    var (mid, m) := After(out, seen, p);
    if q == [] {
      assert p + q == p;
      AfterNothing(mid, m);
    } else {
      var n := |q| - 1;
      assert (p + q)[..|p| + n] == p + q[..n];
      AfterBoth(out, seen, p, q[..n]);
      AfterOne(out, seen, p + q[..n], q[n]);
      AfterOne(mid, m, q[..n], q[n]);
      assert p + q == (p + q[..n]) + [q[n]] && q == q[..n] + [q[n]];
    }
  }

  lemma AfterOne(out: string, seen: map<string, nat>, p: seq<Piece>, x: Piece)
    ensures var (mid, m) := After(out, seen, p);
            After(out, seen, p + [x]) == match x
                                         case Text(t) => (mid + t, m)
                                         case Value(s) =>
                                           if s in m then (mid + RenderChunk(Ref(m[s])), m)
                                           else (mid + RenderChunk(Lit(s)), m[s := |m|])
  {
    hide RenderChunk, Coded;
    var chunks := Coded(p, seen).0;
    CodedStep(p, x, seen);
    var more := Coded(p + [x], seen).0;
    assert more[..|more| - 1] == chunks;
    var last := more[|more| - 1];
    assert out + Render(more) == out + Render(chunks) + RenderChunk(last);
    if x.Text? {
      RawIsText(x.text);
    }
  }

  lemma RawIsText(t: string)
    ensures RenderChunk(Raw(t)) == t
  {
  }

  lemma AfterNothing(out: string, seen: map<string, nat>)
    ensures After(out, seen, []) == (out, seen)
  {
    assert out + [] == out;
  }

  method EscapeJson(s: string, out: string) returns (out': string)
    ensures out' == out + Escape(s)
  {
    hide EscapeChar;
    out' := out;
    for i := 0 to |s|
      invariant out' == out + Escape(s[..i])
    {
      assert s[..i + 1][..i] == s[..i];
      out' := out' + EscapeChar(s[i]);
    }
    assert s[..|s|] == s;
  }

  /** The first occurrence is quoted and numbered, later ones refer to the number. */
  method CrushString(s: string, out: string, seen: map<string, nat>) returns (out': string, seen': map<string, nat>)
    ensures (out', seen') == After(out, seen, [Value(s)])
  {
    hide Escape, After;
    AfterNothing(out, seen);
    AfterOne(out, seen, [], Value(s));
    assert [] + [Value(s)] == [Value(s)];
    if s in seen {
      return out + ("~" + Decimal(seen[s])), seen;
    }
    out' := EscapeJson(s, out + "\"");
    out' := out' + "\"";
    assert out' == out + ("\"" + Escape(s) + "\"");
    seen' := seen[s := |seen|];
  }

  method CrushValue(v: Json, out: string, seen: map<string, nat>) returns (out': string, seen': map<string, nat>)
    ensures (out', seen') == After(out, seen, Pieces(v))
    decreases v, 2
  {
    hide After, FieldPieces, ItemPieces, ColumnPieces, Columnar;
    match v {
      case Obj(fields) =>
        out', seen' := CrushFields(v, out, seen);
      case Arr(items) =>
        if Columnar(v) {
          out', seen' := CrushColumns(v, out, seen);
        } else {
          out', seen' := CrushItems(v, out, seen);
        }
      case Str(s) =>
        out', seen' := CrushString(s, out, seen);
      case Null =>
        OneText(out, seen, "null");
        out', seen' := out + "null", seen;
      case Bool(b) =>
        OneText(out, seen, if b then "true" else "false");
        out', seen' := out + if b then "true" else "false", seen;
      case Number(text) =>
        OneText(out, seen, text);
        out', seen' := out + text, seen;
    }
  }

  lemma OneText(out: string, seen: map<string, nat>, t: string)
    ensures After(out, seen, [Text(t)]) == (out + t, seen)
  {
    AfterNothing(out, seen);
    AfterOne(out, seen, [], Text(t));
    assert [] + [Text(t)] == [Text(t)];
  }

  /** Writing one more text after pieces already written. */
  lemma PushText(out: string, seen: map<string, nat>, p: seq<Piece>, t: string)
    ensures var (mid, m) := After(out, seen, p);
            After(out, seen, p + [Text(t)]) == (mid + t, m)
  {
    hide After;
    AfterOne(out, seen, p, Text(t));
  }

  lemma Grouped(open: seq<Piece>, p: seq<Piece>, q: seq<Piece>, r: seq<Piece>, t: seq<Piece>)
    ensures open + p + q + r + t == open + (p + q + r + t)
  {
    assert open + p + q == open + (p + q);
    assert open + (p + q) + r == open + (p + q + r);
  }

  lemma Pair(x: Piece, y: Piece)
    ensures [x, y] == [x] + [y]
  {
  }

  lemma NoFields(v: Json)
    requires v.Obj?
    ensures FieldPieces(v, 0) == []
  {
  }

  lemma FieldSkipped(v: Json, i: nat)
    requires v.Obj? && i < |v.fields| && IsNullish(v.fields[i].1)
    ensures FieldPieces(v, i + 1) == FieldPieces(v, i)
  {
    hide Pieces, IsNullish;
  }

  /** One more field after the pieces so far. */
  lemma FieldStep(v: Json, i: nat, open: seq<Piece>, written: bool)
    requires v.Obj? && i < |v.fields| && !IsNullish(v.fields[i].1) && (written <==> FieldPieces(v, i) != [])
    ensures var (key, val) := v.fields[i];
            open + FieldPieces(v, i) + Comma(written) + ([Text(key)] + [Text(":")]) + Pieces(val)
            == open + FieldPieces(v, i + 1)
    ensures FieldPieces(v, i + 1) != []
  {
    hide Pieces, IsNullish;
    var (key, val) := v.fields[i];
    Pair(Text(key), Text(":"));
    Grouped(open, FieldPieces(v, i), Comma(written), [Text(key)] + [Text(":")], Pieces(val));
  }

  method CrushFields(v: Json, out: string, seen: map<string, nat>) returns (out': string, seen': map<string, nat>)
    requires v.Obj?
    ensures (out', seen') == After(out, seen, [Text("{")] + FieldPieces(v, |v.fields|) + [Text("}")])
    decreases v, 1
  {
    hide After, Pieces, IsNullish, FieldPieces;
    var open: seq<Piece> := [Text("{")];
    OneText(out, seen, "{");
    out', seen' := out + "{", seen;
    NoFields(v);
    assert open + FieldPieces(v, 0) == open;
    var written := 0;
    for i := 0 to |v.fields|
      invariant (out', seen') == After(out, seen, open + FieldPieces(v, i))
      invariant written > 0 <==> FieldPieces(v, i) != []
    {
      var (key, val) := v.fields[i];
      if IsNullish(val) {
        FieldSkipped(v, i);
        continue;
      }
      ghost var p := open + FieldPieces(v, i);
      ghost var q := p + Comma(written > 0);
      if written > 0 {
        PushText(out, seen, p, ",");
        out' := out' + ",";
      } else {
        assert q == p;
      }
      PushText(out, seen, q, key);
      PushText(out, seen, q + [Text(key)], ":");
      out' := out' + key + ":";
      ghost var r := q + ([Text(key)] + [Text(":")]);
      assert q + [Text(key)] + [Text(":")] == r;
      AfterBoth(out, seen, r, Pieces(val));
      out', seen' := CrushValue(val, out', seen');
      FieldStep(v, i, open, written > 0);
      written := written + 1;
    }
    PushText(out, seen, open + FieldPieces(v, |v.fields|), "}");
    out' := out' + "}";
  }

  method CrushItems(v: Json, out: string, seen: map<string, nat>) returns (out': string, seen': map<string, nat>)
    requires v.Arr?
    ensures (out', seen') == After(out, seen, [Text("[")] + ItemPieces(v, |v.items|) + [Text("]")])
    decreases v, 1
  {
    hide After, Pieces;
    var open: seq<Piece> := [Text("[")];
    OneText(out, seen, "[");
    out', seen' := out + "[", seen;
    assert open + ItemPieces(v, 0) == open;
    for i := 0 to |v.items|
      invariant (out', seen') == After(out, seen, open + ItemPieces(v, i))
    {
      ghost var p := open + ItemPieces(v, i);
      ghost var q := p + Comma(i > 0);
      if i > 0 {
        PushText(out, seen, p, ",");
        out' := out' + ",";
      } else {
        assert q == p;
      }
      AfterBoth(out, seen, q, Pieces(v.items[i]));
      out', seen' := CrushValue(v.items[i], out', seen');
      assert q + Pieces(v.items[i]) == open + ItemPieces(v, i + 1);
    }
    PushText(out, seen, open + ItemPieces(v, |v.items|), "]");
    out' := out' + "]";
  }

  /** One more column after the pieces so far. */
  lemma ColumnStep(v: Json, ki: nat, open: seq<Piece>)
    requires Columnar(v) && ki < |Columns(v)|
    ensures var key := Columns(v)[ki];
            open + ColumnPieces(v, ki) + Comma(ki > 0) + ([Text(key)] + [Text(":[")])
            + (CellPieces(v, key, |v.items|) + [Text("]")])
            == open + ColumnPieces(v, ki + 1)
  {
    hide CellPieces, AllKeys, Columns;
    var key := Columns(v)[ki];
    var cells := CellPieces(v, key, |v.items|);
    Pair(Text(key), Text(":["));
    Grouped(open, ColumnPieces(v, ki), Comma(ki > 0), [Text(key)] + [Text(":[")], cells + [Text("]")]);
    var before := ColumnPieces(v, ki) + Comma(ki > 0) + [Text(key), Text(":[")];
    assert before + cells + [Text("]")] == before + (cells + [Text("]")]);
  }

  method CrushColumns(v: Json, out: string, seen: map<string, nat>) returns (out': string, seen': map<string, nat>)
    requires Columnar(v)
    ensures (out', seen') == After(out, seen, [Text("{")] + ColumnPieces(v, |Columns(v)|) + [Text("}")])
    decreases v, 1
  {
    hide After, CellPieces, AllKeys, Columns;
    var open: seq<Piece> := [Text("{")];
    OneText(out, seen, "{");
    out', seen' := out + "{", seen;
    assert open + ColumnPieces(v, 0) == open;
    var keys := Columns(v);
    for ki := 0 to |keys|
      invariant (out', seen') == After(out, seen, open + ColumnPieces(v, ki))
    {
      var key := keys[ki];
      ghost var p := open + ColumnPieces(v, ki);
      ghost var q := p + Comma(ki > 0);
      if ki > 0 {
        PushText(out, seen, p, ",");
        out' := out' + ",";
      } else {
        assert q == p;
      }
      PushText(out, seen, q, key);
      PushText(out, seen, q + [Text(key)], ":[");
      out' := out' + key + ":[";
      ghost var r := q + ([Text(key)] + [Text(":[")]);
      assert q + [Text(key)] + [Text(":[")] == r;
      AfterBoth(out, seen, r, CellPieces(v, key, |v.items|));
      out', seen' := CrushCells(v, key, out', seen');
      PushText(out, seen, r + CellPieces(v, key, |v.items|), "]");
      out' := out' + "]";
      ColumnStep(v, ki, open);
      assert r + CellPieces(v, key, |v.items|) + [Text("]")] == r + (CellPieces(v, key, |v.items|) + [Text("]")]);
    }
    PushText(out, seen, open + ColumnPieces(v, |keys|), "}");
    out' := out' + "}";
  }

  method CrushCells(v: Json, key: string, out: string, seen: map<string, nat>) returns (out': string,
                    seen': map<string, nat>)
    requires Columnar(v)
    ensures (out', seen') == After(out, seen, CellPieces(v, key, |v.items|))
    decreases v, 0
  {
    hide After, Pieces, IsNullish, AllKeys;
    AfterNothing(out, seen);
    out', seen' := out, seen;
    for i := 0 to |v.items|
      invariant (out', seen') == After(out, seen, CellPieces(v, key, i))
    {
      ghost var p := CellPieces(v, key, i);
      ghost var q := p + Comma(i > 0);
      if i > 0 {
        PushText(out, seen, p, ",");
        out' := out' + ",";
      } else {
        assert q == p;
      }
      var fields := v.items[i].fields;
      var at := FieldAt(fields, key);
      if at.Some? && !IsNullish(fields[at.value].1) {
        AfterBoth(out, seen, q, Pieces(fields[at.value].1));
        out', seen' := CrushValue(fields[at.value].1, out', seen');
      }
    }
  }

  /** Crushing a parsed value; text that does not parse is passed through. */
  method Crush(input: string, parsed: Option<Json>) returns (out: string)
    ensures out == if parsed.Some? then Crushed(parsed.value) else input
  {
    hide Pieces, Coded, Render;
    match parsed {
      case None => out := input;
      case Some(v) =>
        var seen;
        out, seen := CrushValue(v, "", map[]);
        assert out == "" + Crushed(v);
    }
  }
}
