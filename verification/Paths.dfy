/** Etcd keys for names: labels reversed under a prefix, one leaf per record. */
module Paths {
  import opened Domain
  import opened Text

  /** The name without surrounding white space and without one trailing dot. */
  function Normalise(fqdn: string): string {
    TrimSuffix(TrimSpace(fqdn), ".")
  }

  function KeyBaseForFqdn(prefix: string, fqdn: string): string {
    TrimRight(prefix, '/') + "/" + Join(Reversed(Split(Normalise(fqdn), '.')), '/')
  }

  function FqdnFromKey(prefix: string, key: string): string {
    var path := TrimPrefix(TrimPrefix(key, TrimRight(prefix, '/')), "/");
    var parts := Split(path, '/');
    var n := |parts|;
    Join(Reversed(if HasPrefix(parts[n - 1], "x") then parts[..n - 1] else parts), '.')
  }

  /** A key under the base: the base, a slash, and one more segment. */
  function LeafKey(prefix: string, fqdn: string, leaf: string): string {
    KeyBaseForFqdn(prefix, fqdn) + "/" + leaf
  }

  predicate IsLeaf(leaf: string) {
    HasPrefix(leaf, "x") && '/' !in leaf
  }

  lemma ParsePrinted(prefix: string, fqdn: string, leaf: string)
    requires IsLeaf(leaf) && '/' !in Normalise(fqdn)
    ensures FqdnFromKey(prefix, LeafKey(prefix, fqdn, leaf)) == Normalise(fqdn)
  {
    var name := Normalise(fqdn);
    var labels := Split(name, '.');
    var segments := Reversed(labels);
    var head := TrimRight(prefix, '/');
    var key := LeafKey(prefix, fqdn, leaf);
    SplitIsFree(name, '.', '/');
    ReversedFree(labels, '/');
    JoinAppend(segments, leaf, '/');
    var path := Join(segments + [leaf], '/');
    assert key == head + ("/" + path);
    assert TrimPrefix(key, head) == "/" + path;
    SplitJoin(segments + [leaf], '/');
    assert (segments + [leaf])[..|segments|] == segments;
    ReversedTwice(labels);
    JoinSplit(name, '.');
  }

  lemma ParsedHasNoSlash(prefix: string, key: string)
    ensures '/' !in FqdnFromKey(prefix, key)
  {
    var path := TrimPrefix(TrimPrefix(key, TrimRight(prefix, '/')), "/");
    var parts := Split(path, '/');
    SplitIsFree(path, '/', '/');
    var kept := if HasPrefix(parts[|parts| - 1], "x") then parts[..|parts| - 1] else parts;
    ReversedFree(kept, '/');
    JoinFree(Reversed(kept), '.', '/');
  }

  lemma {:induction false} TrimRightKeeps(s: string, c: char)
    requires c !in s
    ensures c !in TrimRightSpace(s)
  {
    if s != "" {
      TrimRightKeeps(s[..|s| - 1], c);
    }
  }

  lemma {:induction false} TrimLeftKeeps(s: string, c: char)
    requires c !in s
    ensures c !in TrimLeftSpace(s)
  {
    if s != "" {
      TrimLeftKeeps(s[1..], c);
    }
  }

  /** There is nothing to trim: no white space at either end, and no dot at the end. */
  predicate IsNormal(name: string) {
    name != "" ==> !IsSpace(name[0]) && !IsSpace(name[|name| - 1]) && name[|name| - 1] != '.'
  }

  lemma {:induction false} TrimLeftExact(lead: string, rest: string)
    requires (forall c :: c in lead ==> IsSpace(c)) && (rest == "" || !IsSpace(rest[0]))
    ensures TrimLeftSpace(lead + rest) == rest
  {
    if lead != "" {
      assert (lead + rest)[1..] == lead[1..] + rest;
      TrimLeftExact(lead[1..], rest);
    } else {
      assert lead + rest == rest;
    }
  }

  lemma {:induction false} TrimRightExact(rest: string, trail: string)
    requires (forall c :: c in trail ==> IsSpace(c)) && (rest == "" || !IsSpace(rest[|rest| - 1]))
    ensures TrimRightSpace(rest + trail) == rest
  {
    if trail != "" {
      assert (rest + trail)[..|rest + trail| - 1] == rest + trail[..|trail| - 1];
      TrimRightExact(rest, trail[..|trail| - 1]);
    } else {
      assert rest + trail == rest;
    }
  }

  /** White space around a name goes, and so does one dot at its end, but no more than one. */
  lemma TrimmedAway(lead: string, name: string, trail: string)
    requires (forall c :: c in lead ==> IsSpace(c)) && (forall c :: c in trail ==> IsSpace(c))
    requires name != "" ==> !IsSpace(name[0]) && !IsSpace(name[|name| - 1])
    ensures Normalise(lead + name + trail) ==
            if name != "" && name[|name| - 1] == '.' then name[..|name| - 1] else name
  {
    if name == "" {
      assert lead + name + trail == (lead + trail) + "";
      TrimLeftExact(lead + trail, "");
    } else {
      assert lead + name + trail == lead + (name + trail);
      TrimLeftExact(lead, name + trail);
      TrimRightExact(name, trail);
    }
  }

  lemma NormalExactly(name: string)
    ensures Normalise(name) == name <==> IsNormal(name)
  {
    if IsNormal(name) {
      assert [] + name + [] == name;
      TrimmedAway([], name, []);
    } else if IsSpace(name[0]) {
      ShorterRight(TrimLeftSpace(name));
      ShorterLeft(name[1..]);
    } else {
      ShorterRight(name[..|name| - 1]);
    }
  }

  lemma {:induction false} ShorterLeft(s: string)
    ensures |TrimLeftSpace(s)| <= |s|
  {
    if s != "" {
      ShorterLeft(s[1..]);
    }
  }

  lemma {:induction false} ShorterRight(s: string)
    ensures |TrimRightSpace(s)| <= |s|
  {
    if s != "" {
      ShorterRight(s[..|s| - 1]);
    }
  }

  /** The name survives printing and parsing exactly when it has no slash and nothing to trim;
      labels that begin with x, empty labels and any prefix included. */
  lemma RoundTripExact(prefix: string, fqdn: string, leaf: string)
    requires IsLeaf(leaf)
    ensures FqdnFromKey(prefix, LeafKey(prefix, fqdn, leaf)) == fqdn <==> '/' !in fqdn && IsNormal(fqdn)
  {
    NormalExactly(fqdn);
    if '/' in fqdn {
      ParsedHasNoSlash(prefix, LeafKey(prefix, fqdn, leaf));
    } else {
      TrimLeftKeeps(fqdn, '/');
      TrimRightKeeps(TrimLeftSpace(fqdn), '/');
      ParsePrinted(prefix, fqdn, leaf);
    }
  }

  /** A key without a leaf: its last segment is a label of the name, unless that begins with an x. */
  lemma BareKeyParses(prefix: string, fqdn: string)
    requires '/' !in Normalise(fqdn)
    ensures
      var labels := Split(Normalise(fqdn), '.');
      FqdnFromKey(prefix, KeyBaseForFqdn(prefix, fqdn)) ==
      if HasPrefix(labels[0], "x") then Join(labels[1..], '.') else Normalise(fqdn)
  {
    var name := Normalise(fqdn);
    var labels := Split(name, '.');
    var segments := Reversed(labels);
    var head := TrimRight(prefix, '/');
    SplitIsFree(name, '.', '/');
    ReversedFree(labels, '/');
    var path := Join(segments, '/');
    assert KeyBaseForFqdn(prefix, fqdn) == head + ("/" + path);
    assert TrimPrefix(KeyBaseForFqdn(prefix, fqdn), head) == "/" + path;
    SplitJoin(segments, '/');
    ReversedAt(labels, 0);
    assert labels == [labels[0]] + labels[1..];
    ReversedCons(labels[0], labels[1..]);
    assert segments[..|segments| - 1] == Reversed(labels[1..]);
    ReversedTwice(labels[1..]);
    ReversedTwice(labels);
    JoinSplit(name, '.');
  }

  predicate IsAlnum(c: char) {
    'a' <= c <= 'z' || 'A' <= c <= 'Z' || IsDigit(c)
  }

  /** A host name label: letters, digits and inner hyphens, at most 63 characters. */
  predicate IsLabel(part: string) {
    && 1 <= |part| <= 63
    && IsAlnum(part[0]) && IsAlnum(part[|part| - 1])
    && forall i :: 0 <= i < |part| ==> IsAlnum(part[i]) || part[i] == '-'
  }

  predicate IsValidHostname(h: string) {
    0 < |h| <= 255 && forall i :: 0 <= i < |Split(h, '.')| ==> IsLabel(Split(h, '.')[i])
  }

  /** A label has 1 to 63 characters, all letters, digits or hyphens, and no hyphen at either end. */
  lemma LabelByChars(part: string)
    ensures IsLabel(part) <==>
            && 0 < |part| < 64 && part[0] != '-' && part[|part| - 1] != '-'
            && forall c :: c in part ==> 'a' <= c <= 'z' || 'A' <= c <= 'Z' || '0' <= c <= '9' || c == '-'
  {
    assert forall i :: 0 <= i < |part| ==> part[i] in part;
  }

  predicate AllLabels(parts: seq<string>) {
    forall i :: 0 <= i < |parts| ==> IsLabel(parts[i])
  }

  /** The name is cut at n into a label and a host name. */
  predicate IsCutAt(h: string, n: nat) {
    n < |h| && h[n] == '.' && IsLabel(h[..n]) && IsValidHostname(h[n + 1..])
  }

  /** A host name has up to 255 characters and is one label, or a label, a dot and a host name. */
  lemma HostnameGrammar(h: string)
    ensures IsValidHostname(h) <==> |h| <= 255 && (IsLabel(h) || exists n: nat :: IsCutAt(h, n))
  {
    if '.' !in h {
      SplitFree(h, '.');
      assert Split(h, '.')[0] == h;
      assert forall n: nat :: n < |h| ==> h[n] in h;
    } else {
      var n := FirstDot(h);
      assert !IsAlnum('.') && !IsLabel(h);
      LabelsCut(h, n);
      if m: nat :| IsCutAt(h, m) {
        assert n <= m;
        assert n < m ==> h[..m][n] == '.';
      }
    }
  }

  lemma OneMoreLabel(part: string, parts: seq<string>)
    ensures AllLabels([part] + parts) <==> IsLabel(part) && AllLabels(parts)
  {
    var all := [part] + parts;
    assert all[0] == part && forall i :: 0 <= i < |parts| ==> parts[i] == all[i + 1];
    if AllLabels(all) {
      forall i | 0 <= i < |parts|
        ensures IsLabel(parts[i])
      {
        assert IsLabel(all[i + 1]);
      }
    }
  }

  lemma LabelsCut(h: string, n: nat)
    requires n < |h| && h[n] == '.' && '.' !in h[..n]
    ensures |h| <= 255 ==> (IsValidHostname(h) <==> IsCutAt(h, n))
  {
    var part, rest := h[..n], h[n + 1..];
    assert h == part + ['.'] + rest;
    SplitPart(part, rest, '.');
    OneMoreLabel(part, Split(rest, '.'));
    assert IsValidHostname(h) <==> |h| <= 255 && AllLabels(Split(h, '.'));
    assert rest == "" ==> !IsLabel(Split(rest, '.')[0]);
    assert IsValidHostname(rest) <==> 0 < |rest| <= 255 && AllLabels(Split(rest, '.'));
  }

  lemma {:induction false} FirstDot(h: string) returns (n: nat)
    requires '.' in h
    ensures n < |h| && h[n] == '.' && '.' !in h[..n]
  {
    if h[0] == '.' {
      n := 0;
    } else {
      var m := FirstDot(h[1..]);
      n := m + 1;
      assert h[..n] == [h[0]] + h[1..][..m];
    }
  }

  lemma {:induction false} SplitChars(s: string, sep: char, c: char)
    requires c in s && c != sep
    ensures exists i :: 0 <= i < |Split(s, sep)| && c in Split(s, sep)[i]
  {
    var rest := Split(s[1..], sep);
    if c in s[1..] {
      SplitChars(s[1..], sep, c);
      var i :| 0 <= i < |rest| && c in rest[i];
      if s[0] == sep {
        assert Split(s, sep)[i + 1] == rest[i];
      } else if i > 0 {
        assert Split(s, sep)[i] == rest[i];
      } else {
        assert c in Split(s, sep)[0];
      }
    } else {
      assert c == s[0] && c in Split(s, sep)[0];
    }
  }

  lemma {:induction false} SplitLast(s: string, sep: char)
    requires s != "" && s[|s| - 1] == sep
    ensures Split(s, sep)[|Split(s, sep)| - 1] == ""
  {
    if |s| > 1 {
      SplitLast(s[1..], sep);
    } else {
      assert Split(s[1..], sep) == [""];
    }
  }

  /** A valid host name is its own normal form and has no slash. */
  lemma ValidIsNormal(h: string)
    requires IsValidHostname(h)
    ensures '/' !in h && Normalise(h) == h
  {
    forall c | c in h
      ensures IsAlnum(c) || c == '-' || c == '.'
    {
      if c != '.' {
        SplitChars(h, '.', c);
      }
    }
    assert h[0] in h && h[|h| - 1] in h;
    assert IsLabel(Split(h, '.')[|Split(h, '.')| - 1]);
    if h[|h| - 1] == '.' {
      SplitLast(h, '.');
    }
  }

  /** Different names have different bases. */
  lemma BaseInjective(prefix: string, f: string, g: string)
    requires '/' !in Normalise(f) && '/' !in Normalise(g)
    requires KeyBaseForFqdn(prefix, f) == KeyBaseForFqdn(prefix, g)
    ensures Normalise(f) == Normalise(g)
  {
    ParsePrinted(prefix, f, "x");
    ParsePrinted(prefix, g, "x");
  }

  /** A path with one more segment lies below another path exactly when the path itself is that one
      or lies below it. */
  lemma LeafLiesBelow(above: string, base: string, leaf: string)
    requires '/' !in leaf
    ensures HasPrefix(base + "/" + leaf, above + "/") <==> base == above || HasPrefix(base, above + "/")
  {
    var path := base + "/" + leaf;
    forall i | |base| < i < |path|
      ensures path[i] != '/'
    {
      assert path[i] == leaf[i - |base| - 1];
    }
    if HasPrefix(path, above + "/") {
      assert path[|above|] == '/';
      if |base| == |above| {
        assert base == path[..|base|] && above == path[..|above|];
      } else if |base| > |above| {
        assert base[..|above| + 1] == path[..|above| + 1] == above + "/";
      }
    }
    if HasPrefix(base, above + "/") {
      assert path[..|above| + 1] == base[..|above| + 1];
    }
  }

  /** What a prefix search below the base of one name finds: leaves of that name, and leaves of names
      whose base lies below it. */
  lemma FoundBelow(prefix: string, name: string, leaf: string, searched: string)
    requires '/' !in leaf && '/' !in Normalise(name) && '/' !in Normalise(searched)
    ensures HasPrefix(LeafKey(prefix, name, leaf), KeyBaseForFqdn(prefix, searched) + "/") <==>
            || Normalise(name) == Normalise(searched)
            || HasPrefix(KeyBaseForFqdn(prefix, name), KeyBaseForFqdn(prefix, searched) + "/")
  {
    LeafLiesBelow(KeyBaseForFqdn(prefix, searched), KeyBaseForFqdn(prefix, name), leaf);
    if KeyBaseForFqdn(prefix, name) == KeyBaseForFqdn(prefix, searched) {
      BaseInjective(prefix, name, searched);
    }
  }

  lemma BelowIsValid(name: string, part: string)
    requires IsValidHostname(name) && IsLabel(part) && |part| + 1 + |name| <= 255
    ensures IsValidHostname(part + "." + name)
    ensures Split(part + "." + name, '.') == [part] + Split(name, '.')
  {
    assert '.' !in part by {
      assert !IsAlnum('.');
    }
    SplitPart(part, name, '.');
    var labels := Split(name, '.');
    forall i | 0 <= i < |labels| + 1
      ensures IsLabel(([part] + labels)[i])
    {
      if i > 0 {
        assert IsLabel(labels[i - 1]);
      }
    }
  }

  lemma ReversedCons(first: string, rest: seq<string>)
    ensures Reversed([first] + rest) == Reversed(rest) + [first]
  {
    assert ([first] + rest)[1..] == rest;
  }

  /** The name ends in a dot and the other name. */
  predicate IsBelow(name: string, above: string) {
    |above| < |name| && name[|name| - |above| - 1..] == "." + above
  }

  function PathOf(name: string): string {
    Join(Reversed(Split(name, '.')), '/')
  }

  lemma PathSplits(name: string)
    requires '/' !in name
    ensures Split(PathOf(name), '/') == Reversed(Split(name, '.'))
    ensures Reversed(Reversed(Split(name, '.'))) == Split(name, '.') && Join(Split(name, '.'), '.') == name
  {
    SplitIsFree(name, '.', '/');
    ReversedFree(Split(name, '.'), '/');
    SplitJoin(Reversed(Split(name, '.')), '/');
    ReversedTwice(Split(name, '.'));
    JoinSplit(name, '.');
  }

  lemma PathBelow(name: string, above: string)
    requires '/' !in name && '/' !in above
    ensures HasPrefix(PathOf(name), PathOf(above) + "/") <==> IsBelow(name, above)
  {
    if HasPrefix(PathOf(name), PathOf(above) + "/") {
      var rest := PathOf(name)[|PathOf(above)| + 1..];
      assert PathOf(name) == PathOf(above) + ['/'] + rest;
      NameOfPath(name, above, rest);
    }
    if IsBelow(name, above) {
      var q := name[..|name| - |above| - 1];
      assert name == q + ['.'] + above;
      PathOfName(name, q, above);
    }
  }

  lemma UnReversed(all: seq<string>, last: seq<string>, more: seq<string>)
    requires Reversed(all) == Reversed(last) + more
    ensures all == Reversed(more) + last
  {
    ReversedTwice(all);
    ReversedTwice(last);
    ReversedConcat(Reversed(last), more);
  }

  lemma SegmentsBelow(name: string, above: string, rest: string)
    requires '/' !in name && '/' !in above && PathOf(name) == PathOf(above) + ['/'] + rest
    ensures Reversed(Split(name, '.')) == Reversed(Split(above, '.')) + Split(rest, '/')
  {
    PathSplits(name);
    PathSplits(above);
    SplitConcat(PathOf(above), rest, '/');
  }

  lemma LabelsBelow(name: string, above: string, more: seq<string>)
    requires Split(name, '.') == more + Split(above, '.') && more != []
    ensures IsBelow(name, above)
  {
    JoinSplit(name, '.');
    JoinSplit(above, '.');
    JoinConcat(more, Split(above, '.'), '.');
    BelowOf(name, Join(more, '.'), above);
  }

  lemma BelowOf(name: string, q: string, above: string)
    requires name == q + ['.'] + above
    ensures IsBelow(name, above)
  {
  }

  lemma NameOfPath(name: string, above: string, rest: string)
    requires '/' !in name && '/' !in above && PathOf(name) == PathOf(above) + ['/'] + rest
    ensures IsBelow(name, above)
  {
    SegmentsBelow(name, above, rest);
    UnReversed(Split(name, '.'), Split(above, '.'), Split(rest, '/'));
    LabelsBelow(name, above, Reversed(Split(rest, '/')));
  }

  lemma PathOfName(name: string, q: string, above: string)
    requires name == q + ['.'] + above
    ensures HasPrefix(PathOf(name), PathOf(above) + "/")
  {
    SplitConcat(q, above, '.');
    ReversedConcat(Split(q, '.'), Split(above, '.'));
    JoinConcat(Reversed(Split(above, '.')), Reversed(Split(q, '.')), '/');
    var more := Join(Reversed(Split(q, '.')), '/');
    assert PathOf(name) == (PathOf(above) + "/") + more;
  }

  /** One base lies below another exactly when the name ends in a dot and the other name. */
  lemma BaseBelow(prefix: string, name: string, above: string)
    requires IsValidHostname(name) && IsValidHostname(above)
    ensures HasPrefix(KeyBaseForFqdn(prefix, name), KeyBaseForFqdn(prefix, above) + "/") <==> IsBelow(name, above)
  {
    ValidIsNormal(name);
    ValidIsNormal(above);
    PathBelow(name, above);
    var head := TrimRight(prefix, '/') + "/";
    assert KeyBaseForFqdn(prefix, name) == head + PathOf(name);
    assert KeyBaseForFqdn(prefix, above) + "/" == head + (PathOf(above) + "/");
    SamePrefix(head, PathOf(name), PathOf(above) + "/");
  }

  lemma SamePrefix(head: string, s: string, t: string)
    ensures HasPrefix(head + s, head + t) <==> HasPrefix(s, t)
  {
    if HasPrefix(s, t) {
      assert s == t + s[|t|..];
      assert head + s == (head + t) + s[|t|..];
    }
    if HasPrefix(head + s, head + t) {
      assert t == (head + t)[|head|..] && s == (head + s)[|head|..];
    }
  }

  /** A name of one label is printed right below the prefix. */
  lemma TopLabel(prefix: string, part: string)
    requires IsLabel(part)
    ensures KeyBaseForFqdn(prefix, part) == TrimRight(prefix, '/') + "/" + part
  {
    assert '.' !in part by {
      assert !IsAlnum('.');
    }
    SplitFree(part, '.');
    assert [part][1..] == [];
    assert IsNormal(part);
    NormalExactly(part);
  }

  /** Names below a name are printed below its base. */
  lemma BelowIsPrefix(prefix: string, name: string, part: string)
    requires IsValidHostname(name) && IsLabel(part) && |part| + 1 + |name| <= 255
    ensures IsValidHostname(part + "." + name)
    ensures KeyBaseForFqdn(prefix, part + "." + name) == KeyBaseForFqdn(prefix, name) + "/" + part
  {
    var labels := Split(name, '.');
    BelowIsValid(name, part);
    ValidIsNormal(name);
    ValidIsNormal(part + "." + name);
    ReversedCons(part, labels);
    JoinAppend(Reversed(labels), part, '/');
  }
}
