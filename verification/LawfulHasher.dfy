/** A hasher that meets the chain's premises, so that what is proved from them is not about nothing. */
module LawfulHasher {
  import opened DecimalText
  import opened Timeline

  function Fixed(s: string): string
  {
    seq(64, i => '0')
  }

  /** Text in which the closing mark cannot be taken for content. */
  function Quoted(s: string): string
  {
    if s == [] then "." else ['-', s[0]] + Quoted(s[1..])
  }

  function Joined(ss: seq<string>): string
  {
    if ss == [] then "." else "-" + Quoted(ss[0]) + Joined(ss[1..])
  }

  lemma {:induction false} QuotedTells(a: string, r: string, b: string, t: string)
    requires Quoted(a) + r == Quoted(b) + t
    ensures a == b && r == t
  {
    var x, y := Quoted(a) + r, Quoted(b) + t;
    assert x[0] == y[0];
    if a != [] && b != [] {
      assert x[1] == a[0] && y[1] == b[0];
      assert x[2..] == Quoted(a[1..]) + r && y[2..] == Quoted(b[1..]) + t;
      QuotedTells(a[1..], r, b[1..], t);
      assert a == [a[0]] + a[1..] && b == [b[0]] + b[1..];
    } else if a == [] && b == [] {
      assert x[1..] == r && y[1..] == t;
    }
  }

  lemma {:induction false} JoinedTells(a: seq<string>, b: seq<string>)
    requires Joined(a) == Joined(b)
    ensures a == b
  {
    hide Quoted;
    var x, y := Joined(a), Joined(b);
    assert x[0] == y[0];
    if a != [] && b != [] {
      assert x[1..] == Quoted(a[0]) + Joined(a[1..]) && y[1..] == Quoted(b[0]) + Joined(b[1..]);
      QuotedTells(a[0], Joined(a[1..]), b[0], Joined(b[1..]));
      JoinedTells(a[1..], b[1..]);
      assert a == [a[0]] + a[1..] && b == [b[0]] + b[1..];
    }
  }

  function Decimals(ws: seq<Float>): (r: seq<string>)
    ensures |r| == |ws|
  {
    seq(|ws|, i requires 0 <= i < |ws| => Decimal(ws[i]))
  }

  lemma DecimalsTell(a: seq<Float>, b: seq<Float>)
    requires Decimals(a) == Decimals(b)
    ensures a == b
  {
    hide Decimal;
    assert |a| == |b|;
    forall i | 0 <= i < |a|
      ensures a[i] == b[i]
    {
      assert Decimals(a)[i] == Decimal(a[i]) && Decimals(b)[i] == Decimal(b[i]);
      DecimalTells(a[i], b[i]);
    }
  }

  function RecallFields(r: Recall): (string, seq<string>)
  {
    match r
    case WorkingSet => ("working-set", [])
    case Around(uri) => ("around", [uri])
    case Task(text) => ("task", [text])
    case Semantic(text) => ("semantic", [text])
    case Hybrid(text) => ("hybrid", [text])
    case CausalFlash(params) => ("flash", Decimals(params))
  }

  function Fields(op: Op): (string, string, string, seq<string>)
  {
    match op
    case Ingest(uri, source) => ("ingest", uri, source, [])
    case Failure(node, depth) => ("failure", node, Decimal(depth), [])
    case Recalled(recall, budget) => ("recall", RecallFields(recall).0, Decimal(budget), RecallFields(recall).1)
    case PageFault(files, depth) => ("fault", "", Decimal(depth), files)
    case Retune(weights) => ("retune", "", "", Decimals(weights))
    case Assert(e, c, supports, w) => (if supports then "support" else "contradict", e, c, [Decimal(w)])
  }

  function Text(op: Op): string
  {
    var (tag, x, y, rest) := Fields(op);
    Joined([tag, x, y] + rest)
  }

  lemma RecallFieldsTell(a: Recall, b: Recall)
    requires RecallFields(a) == RecallFields(b)
    ensures a == b
  {
    hide Decimals;
    Tags();
    if a.CausalFlash? && b.CausalFlash? {
      DecimalsTell(a.params, b.params);
    }
  }

  lemma Tags()
    ensures |"working-set"| == 11 && |"around"| == 6 && |"task"| == 4 && |"semantic"| == 8 && |"hybrid"| == 6
        && |"flash"| == 5
    ensures "around"[0] != "hybrid"[0]
    ensures |"ingest"| == 6 && |"failure"| == 7 && |"recall"| == 6 && |"fault"| == 5 && |"retune"| == 6
    ensures |"support"| == 7 && |"contradict"| == 10
    ensures "ingest"[0] == 'i' && "recall"[2] == 'c' && "retune"[2] == 't' && "retune"[0] == "recall"[0] == 'r'
    ensures "failure"[0] != "support"[0]
  {
  }

  lemma FieldsTell(a: Op, b: Op)
    requires Fields(a) == Fields(b)
    ensures a == b
  {
    hide Decimal, Decimals, RecallFields;
    Tags();
    match a {
      case Ingest(_, _) =>
      case Failure(_, depth) => DecimalTells(depth, b.depth);
      case Recalled(recall, budget) =>
        DecimalTells(budget, b.budget);
        RecallFieldsTell(recall, b.recall);
      case PageFault(_, depth) => DecimalTells(depth, b.depth);
      case Retune(weights) => DecimalsTell(weights, b.weights);
      case Assert(_, _, _, w) =>
        assert [Decimal(w)][0] == [Decimal(b.weight)][0];
        DecimalTells(w, b.weight);
    }
  }

  /** The premises of the chain can be met, even by a digest under which everything collides. */
  lemma PremisesHold()
    ensures Lawful(Hasher(Fixed, Text))
  {
    hide Fields;
    forall a: Op, b: Op | Text(a) == Text(b)
      ensures a == b
    {
      var p, q := Fields(a), Fields(b);
      var s, t := [p.0, p.1, p.2] + p.3, [q.0, q.1, q.2] + q.3;
      JoinedTells(s, t);
      assert s[0] == p.0 && s[1] == p.1 && s[2] == p.2 && s[3..] == p.3;
      assert t[0] == q.0 && t[1] == q.1 && t[2] == q.2 && t[3..] == q.3;
      FieldsTell(a, b);
    }
  }
}
