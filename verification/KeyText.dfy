/** The diff's map keys as the text they really are: fields joined with a bar, and when that text
    identifies an intent. */
module KeyText {
  import opened Domain
  import opened Text

  const BAR := '|'

  function KindText(kind: RecordKind): string {
    match kind
    case A => "A"
    case AAAA => "AAAA"
    case CNAME => "CNAME"
    case Other(text) => text
  }

  /** The fields in the order the key prints them, the record's own key last. */
  function Fields(ri: RecordIntent): seq<string> {
    [ri.containerId, ri.containerName, ri.hostname, if ri.force then "true" else "false", Itoa(ri.ttl),
     ri.record.name, KindText(ri.record.kind), ri.record.value]
  }

  function Key(ri: RecordIntent): string {
    Join(Fields(ri), BAR)
  }

  /** `Other` is not used to spell a supported kind. */
  predicate Spelled(kind: RecordKind) {
    kind.Other? ==> kind.text !in ["A", "AAAA", "CNAME"]
  }

  /** Bars may only stand in the last field. */
  predicate Plain(ri: RecordIntent) {
    && BAR !in ri.containerId && BAR !in ri.containerName && BAR !in ri.hostname
    && BAR !in ri.record.name && BAR !in KindText(ri.record.kind)
    && Spelled(ri.record.kind)
  }

  lemma {:induction false} JoinInjective(p: seq<string>, q: seq<string>, sep: char)
    requires |p| == |q| > 0 && AllFree(p[..|p| - 1], sep) && AllFree(q[..|q| - 1], sep)
    requires Join(p, sep) == Join(q, sep)
    ensures p == q
  {
    if |p| > 1 {
      var restP, restQ := Join(p[1..], sep), Join(q[1..], sep);
      assert p[..|p| - 1][0] == p[0] && q[..|q| - 1][0] == q[0];
      SplitPart(p[0], restP, sep);
      SplitPart(q[0], restQ, sep);
      assert p[0] + [sep] + restP == q[0] + [sep] + restQ;
      assert [p[0]] + Split(restP, sep) == [q[0]] + Split(restQ, sep);
      assert p[0] == ([p[0]] + Split(restP, sep))[0] == q[0];
      assert restP == (p[0] + [sep] + restP)[|p[0]| + 1..] == restQ;
      assert p[1..][..|p| - 2] == p[..|p| - 1][1..] && q[1..][..|q| - 2] == q[..|q| - 1][1..];
      JoinInjective(p[1..], q[1..], sep);
      assert p == [p[0]] + p[1..] && q == [q[0]] + q[1..];
    }
  }

  lemma KindTextInjective(a: RecordKind, b: RecordKind)
    requires Spelled(a) && Spelled(b)
    ensures KindText(a) == KindText(b) ==> a == b
  {
    assert "A" in ["A", "AAAA", "CNAME"] && "AAAA" in ["A", "AAAA", "CNAME"] && "CNAME" in ["A", "AAAA", "CNAME"];
    assert |"A"| == 1 && |"AAAA"| == 4 && |"CNAME"| == 5;
  }

  lemma SameFields(x: RecordIntent, y: RecordIntent)
    requires Fields(x) == Fields(y) && Spelled(x.record.kind) && Spelled(y.record.kind)
    ensures x.Equal(y)
  {
    var p, q := Fields(x), Fields(y);
    assert p[0] == q[0] && p[1] == q[1] && p[2] == q[2] && p[3] == q[3];
    assert p[4] == q[4] && p[5] == q[5] && p[6] == q[6] && p[7] == q[7];
    ItoaParses(x.ttl);
    ItoaParses(y.ttl);
    assert |"true"| == 4 && |"false"| == 5;
    KindTextInjective(x.record.kind, y.record.kind);
  }

  /** Without bars in the earlier fields, the key texts agree exactly when the intents are equal in
      the sense of the diff, in all but the creation instant; so the text stands for the tuple of fields. */
  lemma KeyIsIdentity(x: RecordIntent, y: RecordIntent)
    requires Plain(x) && Plain(y)
    ensures Key(x) == Key(y) <==> x.Equal(y)
    ensures Key(x) == Key(y) <==> x.Key() == y.Key()
    ensures Key(x) == Key(y) <==> x == y.(created := x.created)
  {
    if Key(x) == Key(y) {
      ItoaFree(x.ttl);
      ItoaFree(y.ttl);
      assert AllFree(Fields(x)[..7], BAR) && AllFree(Fields(y)[..7], BAR);
      JoinInjective(Fields(x), Fields(y), BAR);
      SameFields(x, y);
    }
  }

  lemma ItoaFree(n: nat)
    ensures BAR !in Itoa(n)
  {
    ItoaParses(n);
  }

  lemma {:induction false} OnePart(a: string, sep: char)
    requires |Split(a, sep)| == 1
    ensures sep !in a
  {
    if a != "" {
      OnePart(a[1..], sep);
    }
  }

  /** A joined text has at least as many parts as were joined, and more if a part has a separator. */
  lemma {:induction false} PartsOfJoin(q: seq<string>, sep: char)
    requires q != []
    ensures |Split(Join(q, sep), sep)| >= |q|
    ensures |Split(Join(q, sep), sep)| == |q| ==> AllFree(q, sep)
  {
    if |q| == 1 {
      if |Split(q[0], sep)| == 1 {
        OnePart(q[0], sep);
      }
    } else {
      PartsOfJoin(q[1..], sep);
      SplitConcat(q[0], Join(q[1..], sep), sep);
      if |Split(Join(q, sep), sep)| == |q| {
        OnePart(q[0], sep);
        assert forall i :: 0 < i < |q| ==> q[i] == q[1..][i - 1];
      }
    }
  }

  /** Two adjacent parts may share out what is between two of their separators either way. */
  lemma {:induction false} BarMoves(before: seq<string>, a: string, b: string, c: string, after: seq<string>)
    ensures Join(before + [a + [BAR] + b, c] + after, BAR) == Join(before + [a, b + [BAR] + c] + after, BAR)
  {
    var p, q := before + [a + [BAR] + b, c] + after, before + [a, b + [BAR] + c] + after;
    if before == [] {
      assert p[1..] == [c] + after && q[1..] == [b + [BAR] + c] + after;
      assert p[1..][1..] == after && q[1..][1..] == after;
      BarsMoveBack(a, b, c, Join(after, BAR));
    } else {
      assert p[1..] == before[1..] + [a + [BAR] + b, c] + after && q[1..] == before[1..] + [a, b + [BAR] + c] + after;
      BarMoves(before[1..], a, b, c, after);
    }
  }

  lemma BarsMoveBack(a: string, b: string, c: string, rest: string)
    ensures a + [BAR] + b + [BAR] + c == a + [BAR] + (b + [BAR] + c)
    ensures a + [BAR] + b + [BAR] + (c + [BAR] + rest) == a + [BAR] + (b + [BAR] + c + [BAR] + rest)
  {
  }

  lemma CutAtBar(s: string) returns (p: string, q: string)
    requires BAR in s
    ensures s == p + [BAR] + q
  {
    var i :| 0 <= i < |s| && s[i] == BAR;
    p, q := s[..i], s[i + 1..];
  }

  function KindOf(text: string): (kind: RecordKind)
    ensures KindText(kind) == text && Spelled(kind)
  {
    if text == "A" then A else if text == "AAAA" then AAAA else if text == "CNAME" then CNAME else Other(text)
  }

  lemma IdCollides(x: RecordIntent) returns (y: RecordIntent)
    requires BAR in x.containerId
    ensures Key(y) == Key(x) && !y.Equal(x) && y.record == x.record
  {
    var f := Fields(x);
    var p, q := CutAtBar(x.containerId);
    y := x.(containerId := p, containerName := q + [BAR] + x.containerName);
    BarMoves([], p, q, x.containerName, f[2..]);
    assert f == [] + [p + [BAR] + q, x.containerName] + f[2..];
    assert Fields(y) == [] + [p, q + [BAR] + x.containerName] + f[2..];
    assert |y.containerId| < |x.containerId|;
  }

  lemma NameCollides(x: RecordIntent) returns (y: RecordIntent)
    requires BAR in x.containerName
    ensures Key(y) == Key(x) && !y.Equal(x) && y.record == x.record
  {
    var f := Fields(x);
    var p, q := CutAtBar(x.containerName);
    y := x.(containerName := p, hostname := q + [BAR] + x.hostname);
    BarMoves([x.containerId], p, q, x.hostname, f[3..]);
    assert f == [x.containerId] + [p + [BAR] + q, x.hostname] + f[3..];
    assert Fields(y) == [x.containerId] + [p, q + [BAR] + x.hostname] + f[3..];
    assert |y.containerName| < |x.containerName|;
  }

  lemma HostCollides(x: RecordIntent) returns (y: RecordIntent)
    requires BAR in x.hostname
    ensures Key(y) == Key(x) && !y.Equal(x) && y.record == x.record
  {
    var f := Fields(x);
    var p, q := CutAtBar(x.hostname);
    y := x.(containerName := x.containerName + [BAR] + p, hostname := q);
    BarMoves([x.containerId], x.containerName, p, q, f[3..]);
    assert f == [x.containerId] + [x.containerName, p + [BAR] + q] + f[3..];
    assert Fields(y) == [x.containerId] + [x.containerName + [BAR] + p, q] + f[3..];
    assert |y.hostname| < |x.hostname|;
  }

  /** Another intent with the key text of x, if a container's or the host's text has a bar. */
  lemma OwnerCollides(x: RecordIntent) returns (y: RecordIntent)
    requires BAR in x.containerId || BAR in x.containerName || BAR in x.hostname
    ensures Key(y) == Key(x) && !y.Equal(x) && y.record == x.record
  {
    if BAR in x.containerId {
      y := IdCollides(x);
    } else if BAR in x.containerName {
      y := NameCollides(x);
    } else {
      y := HostCollides(x);
    }
  }

  lemma OtherKind(text: string, p: string)
    ensures Spelled(Other(text + [BAR] + p))
  {
    assert (text + [BAR] + p)[|text|] == BAR;
  }

  /** The same for the texts of the record. */
  lemma RecordCollides(x: RecordIntent) returns (y: RecordIntent)
    requires BAR in x.record.name || BAR in KindText(x.record.kind) || BAR in x.record.value
    ensures Key(y) == Key(x) && !y.Equal(x) && Spelled(y.record.kind)
  {
    var f := Fields(x);
    var kind := KindText(x.record.kind);
    if BAR in x.record.name {
      var p, q := CutAtBar(x.record.name);
      y := x.(record := Record(p, Other(q + [BAR] + kind), x.record.value));
      BarMoves(f[..5], p, q, kind, f[7..]);
      assert f == f[..5] + [p + [BAR] + q, kind] + f[7..];
      assert Fields(y) == f[..5] + [p, q + [BAR] + kind] + f[7..];
      OtherKind(q, kind);
      assert |y.record.name| < |x.record.name|;
    } else if BAR in kind {
      var p, q := CutAtBar(kind);
      y := x.(record := Record(x.record.name, KindOf(p), q + [BAR] + x.record.value));
      BarMoves(f[..6], p, q, x.record.value, []);
      assert f == f[..6] + [p + [BAR] + q, x.record.value] + [];
      assert Fields(y) == f[..6] + [p, q + [BAR] + x.record.value] + [];
      assert |y.record.value| > |x.record.value|;
    } else {
      var p, q := CutAtBar(x.record.value);
      y := x.(record := Record(x.record.name, Other(kind + [BAR] + p), q));
      BarMoves(f[..6], kind, p, q, []);
      assert f == f[..6] + [kind, p + [BAR] + q] + [];
      assert Fields(y) == f[..6] + [kind + [BAR] + p, q] + [];
      OtherKind(kind, p);
      assert |y.record.value| < |x.record.value|;
    }
  }

  /** No other intent has the key text of x. */
  ghost predicate IsUnique(x: RecordIntent) {
    forall y: RecordIntent :: Spelled(y.record.kind) && Key(y) == Key(x) ==> y.Equal(x)
  }

  /** The key text of an intent is its own if and only if none of its fields contains a bar. */
  lemma UniqueExactly(x: RecordIntent)
    requires Spelled(x.record.kind)
    ensures IsUnique(x) <==> AllFree(Fields(x), BAR)
  {
    if AllFree(Fields(x), BAR) {
      SplitJoin(Fields(x), BAR);
      forall y: RecordIntent | Spelled(y.record.kind) && Key(y) == Key(x)
        ensures y.Equal(x)
      {
        PartsOfJoin(Fields(y), BAR);
        SplitJoin(Fields(y), BAR);
        SameFields(y, x);
      }
    } else {
      BarSomewhere(x);
      if BAR in x.containerId || BAR in x.containerName || BAR in x.hostname {
        var y := OwnerCollides(x);
      } else {
        var y := RecordCollides(x);
      }
    }
  }

  lemma BarSomewhere(x: RecordIntent)
    requires !AllFree(Fields(x), BAR)
    ensures
      || BAR in x.containerId || BAR in x.containerName || BAR in x.hostname
      || BAR in x.record.name || BAR in KindText(x.record.kind) || BAR in x.record.value
  {
    var i :| 0 <= i < |Fields(x)| && BAR in Fields(x)[i];
    ItoaFree(x.ttl);
    assert BAR !in Fields(x)[3] && BAR !in Fields(x)[4];
  }
}
