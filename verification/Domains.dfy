/** Domain names as strings of bytes and as sequences of labels. */
module Domains {
  import opened Options

  // ---------------------------------------------------------------- strings

  /** The position of the first c, or the length if there is none. */
  function IndexOf(s: string, c: char): (i: nat)
    ensures i <= |s|
    ensures i < |s| ==> s[i] == c
    ensures forall j :: 0 <= j < i ==> s[j] != c
  {
    if s == "" || s[0] == c then 0 else 1 + IndexOf(s[1..], c)
  }

  lemma FirstOf(s: string, i: nat, c: char)
    requires i < |s| && s[i] == c && forall j :: 0 <= j < i ==> s[j] != c
    ensures IndexOf(s, c) == i
  {
  }

  /** strings.Split with a separator of one byte. */
  function Split(s: string, c: char): (f: seq<string>)
    ensures |f| >= 1
    decreases |s|
  {
    var i := IndexOf(s, c);
    if i == |s| then [s] else [s[..i]] + Split(s[i + 1..], c)
  }

  function Join(f: seq<string>, c: char): string {
    if f == [] then "" else if |f| == 1 then f[0] else f[0] + [c] + Join(f[1..], c)
  }

  lemma JoinCons(x: string, f: seq<string>, c: char)
    requires f != []
    ensures Join([x] + f, c) == x + [c] + Join(f, c)
  {
    assert ([x] + f)[1..] == f;
  }

  /** Splitting loses nothing, so names with equal labels are equal. */
  lemma {:induction false} JoinSplit(s: string, c: char)
    ensures Join(Split(s, c), c) == s
    decreases |s|
  {
    var i := IndexOf(s, c);
    if i < |s| {
      var rest := Split(s[i + 1..], c);
      JoinSplit(s[i + 1..], c);
      assert Split(s, c) == [s[..i]] + rest;
      JoinCons(s[..i], rest, c);
      assert s == s[..i] + [c] + s[i + 1..];
    }
  }

  lemma {:induction false} IndexOfConcat(a: string, b: string, c: char)
    requires c !in a && (b == "" || b[0] == c)
    ensures IndexOf(a + b, c) == |a|
  {
    if a == "" {
      assert a + b == b;
    } else {
      assert (a + b)[1..] == a[1..] + b;
      IndexOfConcat(a[1..], b, c);
    }
  }

  lemma SplitConcat(a: string, b: string, c: char)
    requires c !in a
    ensures Split(a + [c] + b, c) == [a] + Split(b, c)
  {
    assert a + [c] + b == a + ([c] + b);
    IndexOfConcat(a, [c] + b, c);
    assert (a + [c] + b)[..|a|] == a && (a + [c] + b)[|a| + 1..] == b;
  }

  function LowerChar(c: char): char {
    if 'A' <= c <= 'Z' then (c as int - 'A' as int + 'a' as int) as char else c
  }

  /** strings.ToLower on ASCII. */
  function ToLower(s: string): (r: string)
    ensures |r| == |s| && forall i :: 0 <= i < |s| ==> r[i] == LowerChar(s[i])
  {
    seq(|s|, i requires 0 <= i < |s| => LowerChar(s[i]))
  }

  // ---------------------------------------------------------------- names

  predicate LetterDigitHyphen(c: char) {
    c == '-' || '0' <= c <= '9' || 'a' <= c <= 'z'
  }

  predicate LabelOk(seg: string) {
    && 0 < |seg| <= 63
    && (forall i :: 0 <= i < |seg| ==> LetterDigitHyphen(seg[i]))
    && seg[0] != '-' && seg[|seg| - 1] != '-'
  }

  predicate IsDomainName(s: string) {
    forall i :: 0 <= i < |Split(s, '.')| ==> LabelOk(Split(s, '.')[i])
  }

  function RemoveTrailingDot(s: string): string {
    if |s| > 0 && s[|s| - 1] == '.' then s[..|s| - 1] else s
  }

  /** Case and a trailing dot dropped. */
  function Folded(s: string): string {
    RemoveTrailingDot(ToLower(s))
  }

  function StringToDomain(s: string): Option<string> {
    var r := Folded(s);
    if IsDomainName(r) then Some(r) else None
  }

  predicate NonEmptyLabels(s: string) {
    forall i :: 0 <= i < |Split(s, '.')| ==> Split(s, '.')[i] != ""
  }

  /** Lower case and without empty labels, hence without a trailing dot. */
  predicate Canonical(s: string) {
    ToLower(s) == s && NonEmptyLabels(s)
  }

  /** What stringToDomain accepts is canonical, and accepting it again changes nothing. */
  lemma StringToDomainCanonical(s: string)
    requires StringToDomain(s).Some?
    ensures Canonical(StringToDomain(s).value)
    ensures StringToDomain(StringToDomain(s).value) == StringToDomain(s)
  {
    var r := StringToDomain(s).value;
    var lower := ToLower(s);
    assert forall i :: 0 <= i < |r| ==> r[i] == lower[i];
    assert ToLower(r) == r;
    NoTrailingDot(r);
  }

  lemma LowerTwice(s: string)
    ensures ToLower(ToLower(s)) == ToLower(s)
  {
    var r := ToLower(s);
    forall i | 0 <= i < |s|
      ensures ToLower(r)[i] == r[i]
    {
      assert r[i] == LowerChar(s[i]);
    }
  }

  lemma LowerDot(s: string)
    ensures ToLower(s + ".") == ToLower(s) + "."
  {
    var x, y := ToLower(s + "."), ToLower(s) + ".";
    forall i | 0 <= i < |s| + 1
      ensures x[i] == y[i]
    {
      assert x[i] == LowerChar((s + ".")[i]);
    }
  }

  lemma TrimDot(r: string)
    ensures RemoveTrailingDot(r + ".") == r
  {
    assert (r + ".")[..|r|] == r;
  }

  /** Case and a trailing dot do not matter. */
  lemma StringToDomainInsensitive(s: string)
    ensures StringToDomain(ToLower(s)) == StringToDomain(s)
    ensures s == "" || s[|s| - 1] != '.' ==> StringToDomain(s + ".") == StringToDomain(s)
  {
    LowerTwice(s);
    if s == "" || s[|s| - 1] != '.' {
      LowerDot(s);
      TrimDot(ToLower(s));
      assert s != "" ==> ToLower(s)[|s| - 1] == LowerChar(s[|s| - 1]) != '.';
    }
  }

  lemma {:induction false} NoTrailingDot(s: string)
    requires NonEmptyLabels(s)
    ensures s != "" && s[|s| - 1] != '.'
    decreases |s|
  {
    var i, f := IndexOf(s, '.'), Split(s, '.');
    assert f[0] != "";
    if i < |s| {
      var g := Split(s[i + 1..], '.');
      assert forall k :: 0 <= k < |g| ==> g[k] == f[k + 1];
      NoTrailingDot(s[i + 1..]);
    }
  }

  // ---------------------------------------------------------------- ancestors

  predicate IsSuffix(a: seq<string>, b: seq<string>) {
    |a| <= |b| && a == b[|b| - |a|..]
  }

  /** The labels of parent are the last labels of child: section 3.1 of RFC 1034. */
  predicate AncestorOrEqual(parent: string, child: string) {
    IsSuffix(Split(parent, '.'), Split(child, '.'))
  }

  /** The labels that plugin.Name compares: case and a trailing dot are ignored, the root has none. */
  function ComparedLabels(s: string): seq<string> {
    var r := Folded(s);
    if r == "" then [] else Split(r, '.')
  }

  /** plugin.Name(parent).Matches(child). */
  predicate Matches(parent: string, child: string) {
    IsSuffix(ComparedLabels(parent), ComparedLabels(child))
  }

  lemma ComparedCanonical(s: string)
    requires Canonical(s)
    ensures Folded(s) == s && ComparedLabels(s) == Split(s, '.')
  {
    NoTrailingDot(s);
  }

  lemma MatchesCanonical(parent: string, child: string)
    requires Canonical(parent) && Canonical(child)
    ensures Matches(parent, child) <==> AncestorOrEqual(parent, child)
  {
    ComparedCanonical(parent);
    ComparedCanonical(child);
  }

  lemma FoldedLower(s: string)
    ensures ToLower(Folded(s)) == Folded(s)
  {
    LowerTwice(s);
    var lower, r := ToLower(s), Folded(s);
    forall i | 0 <= i < |r|
      ensures ToLower(r)[i] == r[i]
    {
      assert r[i] == lower[i] == ToLower(lower)[i];
    }
  }

  /** The name after its first label, if the search goes on to it; empty after a trailing dot. */
  function Parent(child: string): (r: Option<string>)
    ensures r.Some? ==> |r.value| < |child|
  {
    var i := IndexOf(child, '.');
    if i == 0 || i == |child| then None else Some(child[i + 1..])
  }

  lemma OneLabel(name: string)
    requires '.' !in name
    ensures Split(name, '.') == [name] && Parent(name).None?
    ensures IsDomainName(name) <==> LabelOk(name)
    ensures NonEmptyLabels(name) <==> name != ""
  {
    assert IndexOf(name, '.') == |name|;
    assert Split(name, '.')[0] == name;
  }

  /** t is child or one of the names the search gets to from it. */
  predicate Visited(t: string, child: string)
    decreases |child|
  {
    t == child || (Parent(child).Some? && Visited(t, Parent(child).value))
  }

  /** The name ends in a dot and has no empty label before that, or is empty itself. */
  predicate RunsOut(child: string) {
    child == "" || (child[|child| - 1] == '.' && NonEmptyLabels(child[..|child| - 1]))
  }

  lemma SplitCons(s: string, i: nat)
    requires i == IndexOf(s, '.') < |s|
    ensures Split(s, '.') == [s[..i]] + Split(s[i + 1..], '.')
  {
  }

  lemma LabelsCons(s: string, i: nat)
    requires i == IndexOf(s, '.') < |s|
    ensures NonEmptyLabels(s) <==> i > 0 && NonEmptyLabels(s[i + 1..])
  {
    SplitCons(s, i);
    var f, g := Split(s, '.'), Split(s[i + 1..], '.');
    if NonEmptyLabels(s) {
      assert f[0] == s[..i];
      assert forall k :: 0 <= k < |g| ==> g[k] == f[k + 1];
    }
    if i > 0 && NonEmptyLabels(s[i + 1..]) {
      assert forall k :: 1 <= k < |f| ==> f[k] == g[k - 1];
    }
  }

  /** Such a name is one whose parent is such a name. */
  lemma RunsOutParent(child: string)
    requires child != ""
    ensures RunsOut(child) <==> Parent(child).Some? && RunsOut(Parent(child).value)
  {
    var i, n := IndexOf(child, '.'), |child|;
    if i < n && child[n - 1] == '.' {
      var init := child[..n - 1];
      if i == n - 1 {
        assert IndexOf(init, '.') == |init| && Split(init, '.') == [init];
        assert NonEmptyLabels(init) <==> init != "" by { assert Split(init, '.')[0] == init; }
        assert child[i + 1..] == "";
      } else {
        FirstOf(init, i, '.');
        LabelsCons(init, i);
        var rest := child[i + 1..];
        assert rest[..|rest| - 1] == init[i + 1..];
      }
    }
  }

  /** The search gets to the empty name exactly from such names. */
  lemma {:induction false} VisitedEmpty(child: string)
    ensures Visited("", child) <==> RunsOut(child)
    decreases |child|
  {
    if child != "" {
      RunsOutParent(child);
      if Parent(child).Some? {
        VisitedEmpty(Parent(child).value);
      }
    }
  }

  lemma LowerRest(s: string, i: nat)
    requires i <= |s| && ToLower(s) == s
    ensures ToLower(s[i..]) == s[i..]
  {
    var r := s[i..];
    forall k | 0 <= k < |r|
      ensures ToLower(r)[k] == r[k]
    {
      assert s[i + k] == ToLower(s)[i + k] == LowerChar(s[i + k]);
    }
  }

  lemma LabelsRest(s: string, i: nat)
    requires i == IndexOf(s, '.') < |s| && NonEmptyLabels(s)
    ensures 0 < i && NonEmptyLabels(s[i + 1..]) && Split(s, '.')[1..] == Split(s[i + 1..], '.')
  {
    LabelsCons(s, i);
    SplitCons(s, i);
  }

  lemma ParentCanonical(child: string)
    requires Canonical(child)
    ensures Parent(child).None? ==> Split(child, '.') == [child]
    ensures Parent(child).Some? ==>
              && Canonical(Parent(child).value)
              && Split(child, '.')[1..] == Split(Parent(child).value, '.')
  {
    var i := IndexOf(child, '.');
    if i < |child| {
      LabelsRest(child, i);
      LowerRest(child, i + 1);
    }
  }

  lemma SuffixOfRest(a: seq<string>, b: seq<string>)
    requires b != []
    ensures IsSuffix(a, b) <==> a == b || IsSuffix(a, b[1..])
  {
    if IsSuffix(a, b) && |a| < |b| {
      assert b[1..][|b[1..]| - |a|..] == b[|b| - |a|..];
    }
    if IsSuffix(a, b[1..]) {
      assert b[1..][|b[1..]| - |a|..] == b[|b| - |a|..];
    }
  }

  /** The search visits a canonical name's ancestors, itself included, and nothing else. */
  lemma {:induction false} VisitedIsAncestor(p: string, child: string)
    requires Canonical(child) && Canonical(p)
    ensures Visited(p, child) <==> AncestorOrEqual(p, child)
    decreases |child|
  {
    var a, b := Split(p, '.'), Split(child, '.');
    ParentCanonical(child);
    SuffixOfRest(a, b);
    JoinSplit(p, '.');
    JoinSplit(child, '.');
    if Parent(child).Some? {
      VisitedIsAncestor(p, Parent(child).value);
    } else {
      assert b[1..] == [];
    }
  }

  lemma {:induction false} VisitedCanonical(t: string, child: string)
    requires Canonical(child) && Visited(t, child)
    ensures Canonical(t)
    decreases |child|
  {
    if t != child {
      ParentCanonical(child);
      VisitedCanonical(t, Parent(child).value);
    }
  }

  lemma SuffixTransitive(x: seq<string>, y: seq<string>, z: seq<string>)
    requires IsSuffix(x, y) && IsSuffix(y, z)
    ensures IsSuffix(x, z)
  {
    var m, n := |y| - |x|, |z| - |y|;
    forall i | 0 <= i < |x|
      ensures x[i] == z[n + m..][i]
    {
      assert x[i] == y[m..][i] == y[m + i];
      assert y[m + i] == z[n..][m + i] == z[n + m + i];
    }
    assert x == z[n + m..];
  }

  // ---------------------------------------------------------------- which strings are domain names

  /** One to sixty-three ASCII letters of either case, digits and hyphens, no hyphen first or last:
      sections 2.3.1 and 2.3.4 of RFC 1035, with the leading digit of section 2.1 of RFC 1123. */
  predicate PlainLabel(s: string) {
    && 1 <= |s| <= 63 && s[0] != '-' && s[|s| - 1] != '-'
    && forall i :: 0 <= i < |s| ==> s[i] == '-' || '0' <= s[i] <= '9' || 'a' <= s[i] <= 'z' || 'A' <= s[i] <= 'Z'
  }

  predicate PlainLabels(labels: seq<string>) {
    labels != [] && forall i :: 0 <= i < |labels| ==> PlainLabel(labels[i])
  }

  lemma LowerLabel(s: string)
    ensures LabelOk(ToLower(s)) <==> PlainLabel(s)
  {
    var r := ToLower(s);
    forall i | 0 <= i < |s|
      ensures LetterDigitHyphen(r[i])
              <==> s[i] == '-' || '0' <= s[i] <= '9' || 'a' <= s[i] <= 'z' || 'A' <= s[i] <= 'Z'
      ensures r[i] == '-' <==> s[i] == '-'
    {
      assert r[i] == LowerChar(s[i]);
    }
  }

  lemma LowerParts(s: string, i: nat)
    requires i < |s|
    ensures ToLower(s)[..i] == ToLower(s[..i]) && ToLower(s)[i + 1..] == ToLower(s[i + 1..])
  {
    var r, a, b := ToLower(s), s[..i], s[i + 1..];
    assert forall k :: 0 <= k < i ==> r[..i][k] == LowerChar(s[k]) == ToLower(a)[k];
    assert forall k :: 0 <= k < |b| ==> r[i + 1..][k] == LowerChar(s[i + 1 + k]) == ToLower(b)[k];
  }

  lemma LowerIndex(s: string)
    ensures IndexOf(ToLower(s), '.') == IndexOf(s, '.')
  {
    var r, i := ToLower(s), IndexOf(s, '.');
    assert forall j :: 0 <= j < i ==> r[j] == LowerChar(s[j]) != '.';
    if i < |s| {
      assert r[i] == LowerChar(s[i]) == '.';
      FirstOf(r, i, '.');
    }
  }

  function LowerAll(f: seq<string>): (r: seq<string>)
    ensures |r| == |f| && forall i :: 0 <= i < |f| ==> r[i] == ToLower(f[i])
  {
    seq(|f|, i requires 0 <= i < |f| => ToLower(f[i]))
  }

  lemma LowerAllCons(a: string, f: seq<string>)
    ensures LowerAll([a] + f) == [ToLower(a)] + LowerAll(f)
  {
  }

  /** Lower-casing a name lower-cases its labels. */
  lemma {:induction false} LowerSplit(s: string)
    ensures Split(ToLower(s), '.') == LowerAll(Split(s, '.'))
    decreases |s|
  {
    var i := IndexOf(s, '.');
    LowerIndex(s);
    if i < |s| {
      LowerSplit(s[i + 1..]);
      LowerParts(s, i);
      SplitCons(s, i);
      SplitCons(ToLower(s), i);
      LowerAllCons(s[..i], Split(s[i + 1..], '.'));
    } else {
      assert Split(s, '.') == [s] && Split(ToLower(s), '.') == [ToLower(s)];
    }
  }

  lemma {:induction false} SplitJoin(f: seq<string>)
    requires f != [] && forall i :: 0 <= i < |f| ==> '.' !in f[i]
    ensures Split(Join(f, '.'), '.') == f
  {
    if |f| == 1 {
      OneLabel(f[0]);
      assert f == [f[0]];
    } else {
      SplitJoin(f[1..]);
      SplitConcat(f[0], Join(f[1..], '.'), '.');
      assert f == [f[0]] + f[1..];
    }
  }

  /** The name is a sequence of plain labels. */
  lemma NameOfLabels(s: string)
    ensures IsDomainName(ToLower(s)) <==> PlainLabels(Split(s, '.'))
  {
    LowerSplit(s);
    var f, g := Split(s, '.'), Split(ToLower(s), '.');
    forall i | 0 <= i < |f|
      ensures LabelOk(g[i]) <==> PlainLabel(f[i])
    {
      LowerLabel(f[i]);
    }
  }

  lemma FoldedIs(s: string)
    ensures Folded(s) == ToLower(RemoveTrailingDot(s))
  {
    if s != "" {
      assert ToLower(s)[|s| - 1] == LowerChar(s[|s| - 1]);
      var x, y := Folded(s), ToLower(RemoveTrailingDot(s));
      assert |x| == |y| && forall i :: 0 <= i < |x| ==> x[i] == y[i];
    }
  }

  lemma PlainNoDot(labels: seq<string>)
    requires PlainLabels(labels)
    ensures forall i :: 0 <= i < |labels| ==> '.' !in labels[i]
  {
  }

  /** stringToDomain accepts exactly plain labels joined by dots, with or without a dot at the end, and
      gives them back in lower case without it. */
  lemma AcceptsLabels(labels: seq<string>)
    requires PlainLabels(labels)
    ensures StringToDomain(Join(labels, '.')) == Some(ToLower(Join(labels, '.')))
    ensures StringToDomain(Join(labels, '.') + ".") == Some(ToLower(Join(labels, '.')))
  {
    var s := Join(labels, '.');
    PlainNoDot(labels);
    SplitJoin(labels);
    NameOfLabels(s);
    assert NonEmptyLabels(s) by { assert forall i :: 0 <= i < |labels| ==> labels[i] != ""; }
    NoTrailingDot(s);
    FoldedIs(s);
    FoldedIs(s + ".");
    TrimDot(s);
  }

  lemma AcceptsOnlyLabels(s: string) returns (labels: seq<string>)
    requires StringToDomain(s).Some?
    ensures PlainLabels(labels) && (s == Join(labels, '.') || s == Join(labels, '.') + ".")
  {
    var r := RemoveTrailingDot(s);
    FoldedIs(s);
    NameOfLabels(r);
    JoinSplit(r, '.');
    labels := Split(r, '.');
    assert s == r || s == r + ".";
  }
}
