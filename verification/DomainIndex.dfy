/** The two-level domain index: buckets by the first two bytes of a name, each a set of names. */
module DomainIndex {
  import opened Options
  import opened Domains

  /** idna.ToASCII; None is an error. */
  type Idna = string -> Option<string>

  function ByteOf(c: char): nat {
    c as int % 256
  }

  /** domainToIndex: the first two bytes, a single one padded with a hyphen in front. */
  function Index(s: string): (k: nat)
    requires s != ""
    ensures k < 65536
  {
    if |s| == 1 then 256 * ByteOf('-') + ByteOf(s[0]) else 256 * ByteOf(s[0]) + ByteOf(s[1])
  }

  /** The two bytes that decide. */
  function FirstBytes(s: string): string
    requires s != ""
  {
    if |s| == 1 then "-" + s else s[..2]
  }

  /** Names share a bucket exactly when they have the same first two bytes, a single one counting as if
      a hyphen came before it. */
  lemma SameBucketExactly(a: string, b: string)
    requires a != "" && b != ""
    requires (forall i :: 0 <= i < |a| ==> a[i] < 256 as char) && (forall i :: 0 <= i < |b| ==> b[i] < 256 as char)
    ensures Index(a) == Index(b) <==> FirstBytes(a) == FirstBytes(b)
  {
    IndexOfBytes(a);
    IndexOfBytes(b);
    var x, y := FirstBytes(a), FirstBytes(b);
    assert x == [x[0], x[1]] && y == [y[0], y[1]];
  }

  lemma IndexOfBytes(s: string)
    requires s != "" && forall i :: 0 <= i < |s| ==> s[i] < 256 as char
    ensures var x := FirstBytes(s);
            && |x| == 2 && x[0] < 256 as char && x[1] < 256 as char
            && Index(s) == 256 * x[0] as int + x[1] as int
  {
  }

  /** The name under which Add stores a string; None if it is refused. */
  function Stored(idna: Idna, str: string): (r: Option<string>)
    ensures r.Some? ==> r.value != ""
  {
    var name := StringToDomain(str);
    DomainNameNotEmpty(str);
    if name.Some? then name
    else
      var ascii := idna(str);
      if ascii.None? || ascii.value == "" then None else ascii
  }

  lemma DomainNameNotEmpty(str: string)
    ensures StringToDomain(str) != Some("")
  {
    assert !LabelOk(Split("", '.')[0]);
  }

  // ---------------------------------------------------------------- the search on a plain set

  /** Something in child's bucket equals child or is found by the scan of the bucket. */
  ghost predicate Hit(names: set<string>, child: string)
    requires child != "" && "" !in names
  {
    exists p :: p in names && Index(p) == Index(child) && (p == child || Matches(p, child))
  }

  /** The loop of Match finds something. */
  ghost predicate MatchNames(names: set<string>, child: string)
    requires "" !in names
    decreases |child|
  {
    child != "" && (Hit(names, child) || (Parent(child).Some? && MatchNames(names, Parent(child).value)))
  }

  /** The loop gets to the empty name, on which domainToIndex panics. */
  ghost predicate Panics(names: set<string>, child: string)
    requires "" !in names
    decreases |child|
  {
    child == "" || (!Hit(names, child) && Parent(child).Some? && Panics(names, Parent(child).value))
  }

  datatype Answer = Yes | No | Panic

  ghost function Ask(names: set<string>, child: string): Answer
    requires "" !in names
  {
    if MatchNames(names, child) then Yes else if Panics(names, child) then Panic else No
  }

  /** The search without the scan. */
  ghost predicate FastMatch(names: set<string>, child: string)
    decreases |child|
  {
    child in names || (Parent(child).Some? && FastMatch(names, Parent(child).value))
  }

  ghost predicate AllCanonical(names: set<string>) {
    forall p :: p in names ==> Canonical(p)
  }

  /** The names at or below a stored name, by their labels as they are. */
  ghost predicate Covered(names: set<string>, child: string) {
    exists p :: p in names && AncestorOrEqual(p, child)
  }

  /** The plain search that the index stands for: some stored name matches. */
  ghost predicate SomeMatches(names: set<string>, child: string) {
    exists p :: p in names && Matches(p, child)
  }

  // ---------------------------------------------------------------- the class

  ghost predicate BucketOk(k: nat, s: set<string>) {
    forall name :: name in s ==> name != "" && Index(name) == k
  }

  class DomainSet {
    var buckets: map<nat, set<string>>

    /** Every name is in the bucket of its first two bytes. */
    ghost predicate Valid()
      reads this
    {
      forall k :: k in buckets ==> BucketOk(k, buckets[k])
    }

    ghost function Names(): (names: set<string>)
      reads this
      requires Valid()
      ensures "" !in names
    {
      assert forall k :: k in buckets ==> BucketOk(k, buckets[k]);
      set k, name | k in buckets && name in buckets[k] :: name
    }

    constructor ()
      ensures Valid() && Names() == {}
    {
      buckets := map[];
    }

    method Add(idna: Idna, str: string) returns (ok: bool)
      requires Valid()
      modifies this
      ensures Valid()
      ensures ok == Stored(idna, str).Some?
      ensures Names() == old(Names()) + if ok then {Stored(idna, str).value} else {}
    {
      var stored := Stored(idna, str);
      if stored.None? {
        return false;
      }
      var name := stored.value;
      var k := Index(name);
      var s := if k in buckets then buckets[k] else {};
      ghost var was := Names();
      buckets := buckets[k := s + {name}];
      forall n
        ensures n in Names() <==> n in was || n == name
      {
        assert k in buckets && name in buckets[k];
        if n in was {
          var j :| j in old(buckets) && n in old(buckets)[j];
          assert j in buckets && n in buckets[j];
        }
      }
      return true;
    }

    /** One bucket scanned for a name that matches. */
    static method Scan(s: set<string>, child: string) returns (found: bool)
      ensures found <==> exists parent :: parent in s && Matches(parent, child)
    {
      var rest := s;
      while rest != {}
        invariant rest <= s
        invariant forall parent :: parent in s && parent !in rest ==> !Matches(parent, child)
        decreases rest
      {
        var parent :| parent in rest;
        if Matches(parent, child) {
          return true;
        }
        rest := rest - {parent};
      }
      return false;
    }

    method Lookup(child: string) returns (found: bool)
      requires Valid() && child != ""
      ensures found <==> Hit(Names(), child)
    {
      var k := Index(child);
      var s := if k in buckets then buckets[k] else {};
      assert forall p :: p in s <==> p in Names() && Index(p) == k;
      if child in s {
        return true;
      }
      found := Scan(s, child);
    }

    method Match(child: string) returns (answer: Answer)
      requires Valid()
      ensures answer == Ask(Names(), child)
    {
      var rest := child;
      while true
        invariant Ask(Names(), rest) == Ask(Names(), child)
        decreases |rest|
      {
        if rest == "" {
          return Panic;
        }
        var hit := Lookup(rest);
        if hit {
          return Yes;
        }
        var parent := Parent(rest);
        if parent.None? {
          return No;
        }
        rest := parent.value;
      }
    }

    /** Buckets are disjoint, so adding up their sizes counts each name once. */
    method Len() returns (n: nat)
      requires Valid()
      ensures n == |Names()|
    {
      n := 0;
      var keys := buckets.Keys;
      ghost var seen: set<string> := {};
      while keys != {}
        invariant keys <= buckets.Keys
        invariant seen == set k, name | k in buckets && k !in keys && name in buckets[k] :: name
        invariant n == |seen|
        decreases keys
      {
        var k :| k in keys;
        forall name | name in seen
          ensures name !in buckets[k]
        {
          var j :| j in buckets && j !in keys && name in buckets[j];
          assert BucketOk(j, buckets[j]) && BucketOk(k, buckets[k]);
        }
        n := n + |buckets[k]|;
        keys := keys - {k};
        seen := seen + buckets[k];
      }
      assert seen == Names();
    }
  }

  // ---------------------------------------------------------------- when the search panics

  /** The search panics exactly on a name that ends in a dot, has no empty label before that, and is
      not found on the way. */
  lemma {:induction false} PanicsExactly(names: set<string>, child: string)
    requires "" !in names
    ensures Panics(names, child) <==> RunsOut(child) && !MatchNames(names, child)
    decreases |child|
  {
    if child != "" {
      RunsOutParent(child);
      if Parent(child).Some? {
        PanicsExactly(names, Parent(child).value);
      }
    }
  }

  lemma CanonicalNeverRunsOut(child: string)
    requires Canonical(child)
    ensures !RunsOut(child)
  {
    NoTrailingDot(child);
  }

  /** What stringToDomain accepts never makes the search panic; a name that only idna.ToASCII accepts
      can. */
  lemma StoredRunsOut(idna: Idna, str: string)
    requires Stored(idna, str).Some? && RunsOut(Stored(idna, str).value)
    ensures StringToDomain(str).None? && idna(str) == Stored(idna, str)
  {
    if StringToDomain(str).Some? {
      StringToDomainCanonical(str);
      CanonicalNeverRunsOut(StringToDomain(str).value);
    }
  }

  // ---------------------------------------------------------------- what the search means

  /** For any stored names: the search finds exactly what some visited name's bucket matches. */
  lemma {:induction false} MatchExactly(names: set<string>, child: string)
    requires "" !in names
    ensures MatchNames(names, child) <==> exists t :: Visited(t, child) && t != "" && Hit(names, t)
    decreases |child|
  {
    if Parent(child).Some? {
      var up := Parent(child).value;
      MatchExactly(names, up);
      if exists t :: Visited(t, up) && t != "" && Hit(names, t) {
        var t :| Visited(t, up) && t != "" && Hit(names, t);
        assert Visited(t, child);
      }
      if exists t :: Visited(t, child) && t != "" && Hit(names, t) {
        var t :| Visited(t, child) && t != "" && Hit(names, t);
        assert t == child || Visited(t, up);
      }
    }
    assert Visited(child, child);
  }

  lemma {:induction false} FastExactly(names: set<string>, child: string)
    ensures FastMatch(names, child) <==> exists p :: p in names && Visited(p, child)
    decreases |child|
  {
    if Parent(child).Some? {
      FastExactly(names, Parent(child).value);
    }
  }

  /** The first two bytes of a name are those of its folded form: no capital among them, and no
      trailing dot. */
  predicate PlainStart(p: string)
    requires p != ""
  {
    && !('A' <= p[0] <= 'Z')
    && (|p| > 1 ==> !('A' <= p[1] <= 'Z'))
    && !(|p| == 2 && p[1] == '.')
  }

  /** The name is not the root; and it has an empty label, so that it matches nothing canonical, or it
      starts as its folded form does. */
  predicate Findable(p: string) {
    p != "" && Folded(p) != "" && (NonEmptyLabels(Folded(p)) ==> PlainStart(p))
  }

  lemma SameIndex(p: string)
    requires p != "" && Folded(p) != ""
    ensures Index(p) == Index(Folded(p)) <==> PlainStart(p)
  {
    var q, lower := Folded(p), ToLower(p);
    assert q[0] == lower[0] == LowerChar(p[0]);
    if |p| > 1 {
      assert lower[1] == LowerChar(p[1]);
      assert |q| > 1 ==> q[1] == lower[1];
    }
  }

  lemma CanonicalFindable(p: string)
    requires Canonical(p)
    ensures Findable(p)
  {
    NoTrailingDot(p);
    assert Folded(p) == p;
    SameIndex(p);
  }

  /** What the search finds is matched by a stored name, whatever is stored. */
  lemma MatchSound(names: set<string>, child: string)
    requires "" !in names && Canonical(child) && MatchNames(names, child)
    ensures SomeMatches(names, child)
  {
    MatchExactly(names, child);
    var t :| Visited(t, child) && t != "" && Hit(names, t);
    var p :| p in names && Index(p) == Index(t) && (p == t || Matches(p, t));
    VisitedCanonical(t, child);
    VisitedIsAncestor(t, child);
    ComparedCanonical(t);
    ComparedCanonical(child);
    if p == t {
      MatchesCanonical(p, child);
    } else {
      SuffixTransitive(ComparedLabels(p), Split(t, '.'), Split(child, '.'));
    }
    assert Matches(p, child);
  }

  /** The folded form of a name that matches a canonical one is canonical. */
  lemma FoldedCanonical(p: string, child: string)
    requires Canonical(child) && Matches(p, child) && Folded(p) != ""
    ensures Canonical(Folded(p)) && AncestorOrEqual(Folded(p), child)
  {
    ComparedCanonical(child);
    FoldedLower(p);
    var f, g := Split(Folded(p), '.'), Split(child, '.');
    forall i | 0 <= i < |f|
      ensures f[i] != ""
    {
      assert f[i] == g[|g| - |f| + i];
    }
  }

  lemma MatchesFolded(p: string)
    requires Canonical(Folded(p))
    ensures Matches(p, Folded(p))
  {
    ComparedCanonical(Folded(p));
    NoTrailingDot(Folded(p));
  }

  /** A stored name that is findable is found from every name that it matches. */
  lemma FindableIsFound(names: set<string>, p: string, child: string)
    requires "" !in names && p in names && Findable(p) && Canonical(child) && Matches(p, child)
    ensures MatchNames(names, child)
  {
    var q := Folded(p);
    FoldedCanonical(p, child);
    VisitedIsAncestor(q, child);
    SameIndex(p);
    MatchesFolded(p);
    assert Hit(names, q);
    MatchExactly(names, child);
  }

  lemma SameLabels(t: string, q: string)
    requires AncestorOrEqual(t, q) && AncestorOrEqual(q, t)
    ensures t == q
  {
    JoinSplit(t, '.');
    JoinSplit(q, '.');
  }

  /** On the way up from its folded form, a name is matched there only. */
  lemma OnlyFoldedHits(p: string, t: string)
    requires Canonical(t) && Canonical(Folded(p)) && AncestorOrEqual(t, Folded(p))
    requires p == t || Matches(p, t)
    ensures t == Folded(p)
  {
    if p == t {
      ComparedCanonical(t);
    } else {
      NoTrailingDot(Folded(p));
      FoldedCanonical(p, t);
      SameLabels(t, Folded(p));
    }
  }

  lemma NoHitOnTheWay(p: string, t: string)
    requires p != "" && t != "" && Folded(p) != "" && Canonical(Folded(p)) && Index(p) != Index(Folded(p))
    requires Canonical(t) && AncestorOrEqual(t, Folded(p))
    ensures !Hit({p}, t)
  {
    if p == t || Matches(p, t) {
      OnlyFoldedHits(p, t);
    }
  }

  lemma VisitedAbove(t: string, child: string)
    requires Canonical(child) && Visited(t, child)
    ensures Canonical(t) && AncestorOrEqual(t, child)
  {
    VisitedCanonical(t, child);
    VisitedIsAncestor(t, child);
  }

  lemma FoldedMissed(p: string)
    requires p != "" && Folded(p) != "" && Canonical(Folded(p)) && Index(p) != Index(Folded(p))
    ensures !MatchNames({p}, Folded(p))
  {
    MatchExactly({p}, Folded(p));
    forall t | Visited(t, Folded(p)) && t != ""
      ensures !Hit({p}, t)
    {
      VisitedAbove(t, Folded(p));
      NoHitOnTheWay(p, t);
    }
  }

  lemma RootMissed(p: string)
    requires p != "" && Folded(p) == ""
    ensures Canonical("a") && Matches(p, "a") && !MatchNames({p}, "a")
  {
    assert ToLower(p)[0] == LowerChar(p[0]);
    assert p[0] == '.' && |p| == 1;
    OneLabel("a");
    assert ToLower("a") == "a";
    assert ComparedLabels(p) == [];
    assert ComparedLabels("a")[|ComparedLabels("a")|..] == [];
    assert Index(p) != Index("a");
  }

  /** A stored name that is not findable is missed from its own folded form, or from any name at all
      if it is the root. */
  lemma NotFindableIsMissed(p: string) returns (child: string)
    requires p != "" && !Findable(p)
    ensures Canonical(child) && Matches(p, child) && !MatchNames({p}, child)
  {
    if Folded(p) == "" {
      child := "a";
      RootMissed(p);
    } else {
      child := Folded(p);
      FoldedLower(p);
      MatchesFolded(p);
      SameIndex(p);
      FoldedMissed(p);
    }
  }

  /** For any pool of names: on every list drawn from the pool and every canonical name the index
      answers what a plain search for a name that matches would, exactly when every name of the pool
      is findable. */
  lemma IndexIsPlainSearchExactly(pool: set<string>)
    requires "" !in pool
    ensures (forall names, child | names <= pool && Canonical(child) ::
               MatchNames(names, child) <==> SomeMatches(names, child))
            <==> forall p :: p in pool ==> Findable(p)
  {
    if forall p :: p in pool ==> Findable(p) {
      forall names, child | names <= pool && Canonical(child)
        ensures MatchNames(names, child) <==> SomeMatches(names, child)
      {
        IndexIsPlainSearch(names, child);
      }
    } else {
      var p :| p in pool && !Findable(p);
      var child := NotFindableIsMissed(p);
      assert p in {p} && {p} <= pool;
      assert SomeMatches({p}, child);
    }
  }

  ghost predicate AllFindable(names: set<string>) {
    forall p :: p in names ==> Findable(p)
  }

  lemma IndexIsPlainSearch(names: set<string>, child: string)
    requires "" !in names && AllFindable(names) && Canonical(child)
    ensures MatchNames(names, child) <==> SomeMatches(names, child)
  {
    if MatchNames(names, child) {
      MatchSound(names, child);
    }
    if SomeMatches(names, child) {
      var p :| p in names && Matches(p, child);
      FindableIsFound(names, p, child);
    }
  }

  /** What Add stores for the strings it accepts. */
  ghost function StoredNames(idna: Idna, strs: set<string>): (names: set<string>)
    ensures "" !in names
  {
    set str | str in strs && Stored(idna, str).Some? :: Stored(idna, str).value
  }

  /** In terms of what is added: every string must be refused, be a domain name, or be turned by
      idna.ToASCII into a findable name. */
  lemma AddedIsFoundExactly(idna: Idna, strs: set<string>)
    ensures (forall names, child | names <= StoredNames(idna, strs) && Canonical(child) ::
               MatchNames(names, child) <==> SomeMatches(names, child))
            <==> forall str :: str in strs ==>
                   StringToDomain(str).Some? || idna(str).None? || idna(str).value == "" || Findable(idna(str).value)
  {
    var pool := StoredNames(idna, strs);
    IndexIsPlainSearchExactly(pool);
    forall str | str in strs && Stored(idna, str).Some?
      ensures Stored(idna, str).value in pool
      ensures StringToDomain(str).Some? ==> Findable(Stored(idna, str).value)
    {
      if StringToDomain(str).Some? {
        StringToDomainCanonical(str);
        CanonicalFindable(StringToDomain(str).value);
      }
    }
  }

  /** For canonical names the index answers what a plain search through all stored names for an
      ancestor would, and the scan of a bucket never changes the answer. */
  lemma IndexIsAncestorSearch(names: set<string>, child: string)
    requires AllCanonical(names) && "" !in names && Canonical(child)
    ensures MatchNames(names, child) <==> Covered(names, child)
    ensures FastMatch(names, child) <==> MatchNames(names, child)
  {
    FastExactly(names, child);
    forall p | p in names
      ensures Findable(p) && (Matches(p, child) <==> AncestorOrEqual(p, child))
      ensures Visited(p, child) <==> AncestorOrEqual(p, child)
    {
      CanonicalFindable(p);
      MatchesCanonical(p, child);
      VisitedIsAncestor(p, child);
    }
    IndexIsPlainSearch(names, child);
  }

  /** What Add stores need not be canonical, since idna.ToASCII hands back a name it need not convert
      as it is. Then the index can miss a name that plugin.Name would match; but not every name that
      is not canonical is missed. */
  lemma NotCanonicalMissed(idna: Idna)
    requires idna("A_b") == Some("A_b") && idna("a_B") == Some("a_B")
    ensures Stored(idna, "A_b") == Some("A_b") && Matches("A_b", "a_b") && !MatchNames({"A_b"}, "a_b")
    ensures Stored(idna, "a_B") == Some("a_B") && !Canonical("a_B") && Findable("a_B")
  {
    assert ToLower("A_b") == "a_b" && ToLower("a_B") == "a_b";
    UnderscoreName("A_b");
    UnderscoreName("a_B");
    MatchesFolded("A_b");
    FoldedMissed("A_b");
  }

  lemma UnderscoreName(p: string)
    requires ToLower(p) == "a_b"
    ensures Folded(p) == "a_b" && Canonical("a_b") && StringToDomain(p).None?
  {
    OneLabel("a_b");
    assert ToLower("a_b") == "a_b";
    assert !LabelOk("a_b") by { assert !LetterDigitHyphen("a_b"[1]); }
  }
}
