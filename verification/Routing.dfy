/** Which block a name is routed to: name lists that reload, INLINE names, except names, and the
    first-match dispatcher over the blocks. */
module Routing {
  import opened Options
  import opened Domains
  import opened DomainIndex

  /** A block as sets of names; lists change with every reload, the rest never does. */
  datatype Block = Block(matchAny: bool, lists: seq<set<string>>, inline: set<string>, ignored: set<string>)

  ghost predicate Proper(b: Block) {
    "" !in b.inline && "" !in b.ignored && forall i :: 0 <= i < |b.lists| ==> "" !in b.lists[i]
  }

  ghost predicate ListMatch(lists: seq<set<string>>, name: string)
    requires forall i :: 0 <= i < |lists| ==> "" !in lists[i]
  {
    exists i :: 0 <= i < |lists| && MatchNames(lists[i], name)
  }

  /** What a block is for. */
  ghost predicate Routed(b: Block, name: string)
    requires Proper(b)
  {
    && (b.matchAny || ListMatch(b.lists, name) || MatchNames(b.inline, name))
    && !MatchNames(b.ignored, name)
  }

  /** NameList.Match: the items are asked in order until one does not say no. */
  ghost function AskList(lists: seq<set<string>>, name: string): Answer
    requires forall i :: 0 <= i < |lists| ==> "" !in lists[i]
  {
    if lists == [] then No
    else
      var first := Ask(lists[0], name);
      if first.No? then AskList(lists[1..], name) else first
  }

  function Negated(a: Answer): Answer {
    match a case Yes => No case No => Yes case Panic => Panic
  }

  /** Match of a block: the list, the INLINE names and the except names are asked in this order, as
      far as needed. */
  ghost function AskBlock(b: Block, name: string): Answer
    requires Proper(b)
  {
    if b.matchAny then Negated(Ask(b.ignored, name))
    else
      var list := AskList(b.lists, name);
      var listed := if list.No? then Ask(b.inline, name) else list;
      if listed.Yes? then Negated(Ask(b.ignored, name)) else listed
  }

  // ---------------------------------------------------------------- the code on domain sets

  ghost predicate AllValid(items: seq<DomainSet>)
    reads items
  {
    forall i :: 0 <= i < |items| ==> items[i].Valid()
  }

  ghost function NamesOfItems(items: seq<DomainSet>): (lists: seq<set<string>>)
    reads items
    requires AllValid(items)
    ensures |lists| == |items| && forall i :: 0 <= i < |items| ==> lists[i] == items[i].Names() && "" !in lists[i]
  {
    seq(|items|, i requires 0 <= i < |items| && AllValid(items) reads items => items[i].Names())
  }

  class Upstream {
    const matchAny: bool
    var items: seq<DomainSet>
    const inline: DomainSet
    const ignored: DomainSet

    ghost predicate Valid()
      reads this, items, inline, ignored
    {
      AllValid(items) && inline.Valid() && ignored.Valid()
    }

    ghost function View(): (b: Block)
      reads this, items, inline, ignored
      requires Valid()
      ensures Proper(b)
    {
      Block(matchAny, NamesOfItems(items), inline.Names(), ignored.Names())
    }

    constructor (matchAny: bool, items: seq<DomainSet>, inline: DomainSet, ignored: DomainSet)
      requires AllValid(items) && inline.Valid() && ignored.Valid()
      ensures Valid() && View() == Block(matchAny, NamesOfItems(items), inline.Names(), ignored.Names())
    {
      this.matchAny, this.items, this.inline, this.ignored := matchAny, items, inline, ignored;
    }

    /** NameList.Match. */
    method MatchList(name: string) returns (answer: Answer)
      requires Valid()
      ensures answer == AskList(View().lists, name)
    {
      ghost var lists := View().lists;
      assert lists[0..] == lists;
      for i := 0 to |items|
        invariant AskList(lists[i..], name) == AskList(lists, name)
      {
        answer := items[i].Match(name);
        assert lists[i..][0] == items[i].Names() && lists[i..][1..] == lists[i + 1..];
        if !answer.No? {
          return;
        }
      }
      return No;
    }

    ghost function Asked(name: string): Answer
      reads this, items, inline, ignored
      requires Valid()
    {
      AskBlock(View(), name)
    }

    ghost predicate Routes(name: string)
      reads this, items, inline, ignored
      requires Valid()
    {
      Routed(View(), name)
    }

    /** The name is excepted, and the set that is asked first has it as well. */
    ghost predicate Shields(name: string)
      reads this, items, inline, ignored
      requires Valid()
    {
      var b := View();
      MatchNames(b.ignored, name) && (b.matchAny || MatchNames(FirstAsked(b), name))
    }

    lemma AskedExactly(name: string)
      requires Valid()
      ensures Asked(name) == if RunsOut(name) then (if Shields(name) then No else Panic)
                             else if Routes(name) then Yes else No
    {
      AskBlockExactly(View(), name);
    }

    method Match(name: string) returns (answer: Answer)
      requires Valid()
      ensures answer == Asked(name)
    {
      if !matchAny {
        answer := MatchList(name);
        if answer.No? {
          answer := inline.Match(name);
        }
        if !answer.Yes? {
          return;
        }
      }
      answer := ignored.Match(name);
      answer := Negated(answer);
    }

    /** The search for every name of one bucket of the INLINE names, in any order. */
    method CheckBucket(s: set<string>) returns (verdict: Verdict)
      requires Valid()
      ensures verdict.Accept? ==> forall name :: name in s ==> Ask(ignored.Names(), name).No?
      ensures verdict.Refuse? ==> exists name :: name in s && MatchNames(ignored.Names(), name)
      ensures verdict.Crash? ==> exists name :: name in s && Panics(ignored.Names(), name)
    {
      ghost var except := ignored.Names();
      var rest := s;
      while rest != {}
        invariant rest <= s
        invariant forall name :: name in s && name !in rest ==> Ask(except, name).No?
        decreases rest
      {
        var name :| name in rest;
        var conflict := ignored.Match(name);
        if conflict.Yes? {
          return Refuse;
        } else if conflict.Panic? {
          return Crash;
        }
        rest := rest - {name};
      }
      return Accept;
    }

    /** The two checks at the end of the construction of a block. INLINE names are taken in any order,
        and the search for one of them may panic. */
    method Check() returns (verdict: Verdict)
      requires Valid()
      ensures verdict.Accept? <==> Accepted(View())
      ensures verdict.Refuse? ==> Conflicting(View()) || (matchAny && inline.Names() != {} && !Crashing(View()))
      ensures verdict.Crash? ==> Crashing(View())
    {
      ghost var names, except := inline.Names(), ignored.Names();
      ghost var seen: set<string> := {};
      var keys := inline.buckets.Keys;
      while keys != {}
        invariant keys <= inline.buckets.Keys
        invariant forall k, name :: k in inline.buckets && k !in keys && name in inline.buckets[k] ==> name in seen
        invariant forall name :: name in seen ==> Ask(except, name).No?
        decreases keys
      {
        var k :| k in keys;
        assert inline.buckets[k] <= names;
        verdict := CheckBucket(inline.buckets[k]);
        if !verdict.Accept? {
          return;
        }
        seen := seen + inline.buckets[k];
        keys := keys - {k};
      }
      assert names <= seen;
      var n := inline.Len();
      return if matchAny && n != 0 then Refuse else Accept;
    }
  }

  datatype Verdict = Accept | Refuse | Crash

  /** Some INLINE name is excepted. */
  ghost predicate Conflicting(b: Block)
    requires Proper(b)
  {
    exists name :: name in b.inline && MatchNames(b.ignored, name)
  }

  /** The search for some INLINE name among the except names panics. */
  ghost predicate Crashing(b: Block)
    requires Proper(b)
  {
    exists name :: name in b.inline && Panics(b.ignored, name)
  }

  /** No INLINE name is excepted or makes the search panic, and a block for the root has none. */
  ghost predicate Accepted(b: Block)
    requires Proper(b)
  {
    !Conflicting(b) && !Crashing(b) && (b.matchAny ==> b.inline == {})
  }

  /** Construction comes to an end with every block but those that have an INLINE name with a trailing
      dot, no empty label before it, and no except name that is found from it. Such a name gets in
      although Match relies on names without trailing dots. */
  lemma CrashesExactly(b: Block)
    requires Proper(b)
    ensures Crashing(b) <==> exists name :: name in b.inline && RunsOut(name) && !MatchNames(b.ignored, name)
  {
    forall name | name in b.inline
      ensures Panics(b.ignored, name) <==> RunsOut(name) && !MatchNames(b.ignored, name)
    {
      PanicsExactly(b.ignored, name);
    }
  }

  /** One such name: stringToDomain refuses it for its underscore, and idna.ToASCII hands it back. */
  lemma ServiceNameCrashes(idna: Idna)
    requires idna("_sip.example.com.") == Some("_sip.example.com.")
    ensures Stored(idna, "_sip.example.com.") == Some("_sip.example.com.")
    ensures Crashing(Block(false, [], {"_sip.example.com."}, {}))
  {
    ServiceNameRunsOut();
    InlineCrashes("_sip.example.com.");
    ServiceNameStored(idna);
  }

  lemma ServiceNameStored(idna: Idna)
    requires idna("_sip.example.com.") == Some("_sip.example.com.")
    ensures Stored(idna, "_sip.example.com.") == Some("_sip.example.com.")
  {
    FirstOf("_sip.example.com.", 4, '.');
    NotADomainName("_sip.example.com.", 4);
  }

  lemma InlineCrashes(name: string)
    requires name != "" && RunsOut(name)
    ensures Crashing(Block(false, [], {name}, {}))
  {
    var b := Block(false, [], {name}, {});
    assert name in b.inline;
    MatchExactly(b.ignored, name);
    CrashesExactly(b);
  }

  lemma RunsOutBelow(s: string, i: nat, rest: string)
    requires 0 < i < |s| && s[i] == '.' && forall j :: 0 <= j < i ==> s[j] != '.'
    requires s[i + 1..] == rest && RunsOut(rest)
    ensures RunsOut(s)
  {
    FirstOf(s, i, '.');
    RunsOutParent(s);
  }

  lemma ServiceNameRunsOut()
    ensures RunsOut("_sip.example.com.")
  {
    RunsOutBelow("com.", 3, "");
    RunsOutBelow("example.com.", 7, "com.");
    RunsOutBelow("_sip.example.com.", 4, "example.com.");
  }

  lemma NotADomainName(str: string, i: nat)
    requires str != "" && str[0] == '_' && i == IndexOf(str, '.') < |str| - 1
    ensures StringToDomain(str).None?
  {
    var lower, r := ToLower(str), Folded(str);
    assert forall k :: 0 <= k < |r| ==> r[k] == lower[k] == LowerChar(str[k]);
    FirstOf(r, i, '.');
    assert Split(r, '.')[0] == r[..i];
    assert !LabelOk(r[..i]) by { assert i > 0 ==> r[..i][0] == '_'; }
  }

  /** The root is an ancestor of every name, so the panic in Match is unreachable. */
  lemma RootMatchesAll(name: string)
    ensures Matches(".", name)
  {
    assert RemoveTrailingDot(ToLower(".")) == "";
    assert ComparedLabels(name)[|ComparedLabels(name)|..] == [];
  }

  // ---------------------------------------------------------------- what is routed

  lemma {:induction false} AskListExactly(lists: seq<set<string>>, name: string)
    requires forall i :: 0 <= i < |lists| ==> "" !in lists[i]
    ensures !RunsOut(name) ==> AskList(lists, name) == if ListMatch(lists, name) then Yes else No
    ensures RunsOut(name) && lists != [] ==> AskList(lists, name) == if MatchNames(lists[0], name) then Yes else Panic
  {
    if lists != [] {
      PanicsExactly(lists[0], name);
      AskListExactly(lists[1..], name);
      if ListMatch(lists, name) {
        var i :| 0 <= i < |lists| && MatchNames(lists[i], name);
        assert i > 0 ==> lists[1..][i - 1] == lists[i];
      }
    }
  }

  /** The set that is asked first. */
  ghost function FirstAsked(b: Block): set<string> {
    if b.lists != [] then b.lists[0] else b.inline
  }

  /** The code routes what a block is for, and panics on no name but those that run out: these it
      never routes, and panics on them unless they are excepted and the set asked first has them. */
  lemma AskBlockExactly(b: Block, name: string)
    requires Proper(b)
    ensures !RunsOut(name) ==> AskBlock(b, name) == if Routed(b, name) then Yes else No
    ensures RunsOut(name) ==>
              AskBlock(b, name) == if MatchNames(b.ignored, name) && (b.matchAny || MatchNames(FirstAsked(b), name))
                                   then No else Panic
  {
    PanicsExactly(b.ignored, name);
    PanicsExactly(b.inline, name);
    AskListExactly(b.lists, name);
  }

  ghost predicate FindableBlock(b: Block) {
    && Proper(b) && AllFindable(b.inline) && AllFindable(b.ignored)
    && forall i :: 0 <= i < |b.lists| ==> AllFindable(b.lists[i])
  }

  ghost predicate SomeListMatches(lists: seq<set<string>>, name: string) {
    exists i :: 0 <= i < |lists| && SomeMatches(lists[i], name)
  }

  /** A block routes exactly the names at or below a listed or INLINE name, or all names for the root,
      that are not at or below an except name. */
  lemma RoutedSet(b: Block, name: string)
    requires FindableBlock(b) && Canonical(name)
    ensures AskBlock(b, name)
         == if (b.matchAny || SomeListMatches(b.lists, name) || SomeMatches(b.inline, name)) && !SomeMatches(b.ignored, name)
            then Yes else No
  {
    CanonicalNeverRunsOut(name);
    AskBlockExactly(b, name);
    IndexIsPlainSearch(b.inline, name);
    IndexIsPlainSearch(b.ignored, name);
    forall i | 0 <= i < |b.lists|
      ensures MatchNames(b.lists[i], name) <==> SomeMatches(b.lists[i], name)
    {
      IndexIsPlainSearch(b.lists[i], name);
    }
  }

  /** Through every reload, each INLINE name of an accepted block is routed by it. */
  lemma InlineAlwaysRouted(b: Block, lists: seq<set<string>>, name: string)
    requires Proper(b) && Accepted(b) && Proper(b.(lists := lists)) && name in b.inline
    ensures AskBlock(b.(lists := lists), name).Yes?
  {
    PanicsExactly(b.ignored, name);
    AskBlockExactly(b.(lists := lists), name);
    assert Hit(b.inline, name);
  }

  /** Through every reload, no name at or below an except name is routed, whatever else is listed. */
  lemma ExceptNeverRouted(b: Block, lists: seq<set<string>>, except: string, name: string)
    requires Proper(b) && Proper(b.(lists := lists)) && Canonical(name)
    requires except in b.ignored && Findable(except) && Matches(except, name)
    ensures AskBlock(b.(lists := lists), name).No?
  {
    CanonicalNeverRunsOut(name);
    AskBlockExactly(b.(lists := lists), name);
    FindableIsFound(b.ignored, except, name);
  }

  // ---------------------------------------------------------------- the dispatcher

  function Trimmed(name: string): string {
    if |name| > 1 then RemoveTrailingDot(name) else name
  }

  /** A query name comes with its dot, and what is looked up comes without it, except for the root. */
  lemma TrimmedIs(name: string)
    ensures Trimmed(".") == "."
    ensures name != "" ==> Trimmed(name + ".") == name
    ensures name != "" && name[|name| - 1] != '.' ==> Trimmed(name) == name
  {
  }

  datatype Dispatched = To(first: nat) | Nowhere | Crashed(first: nat)

  /** The blocks before the outcome. */
  function Passed(ups: seq<Upstream>, r: Dispatched): nat {
    if r.Nowhere? then |ups| else r.first
  }

  /** The first block, in order of configuration, that does not say no. Unless the trimmed name runs
      out, nothing panics and that is the first block that routes it. If it does, no block routes it
      and the search panics in the first block that does not shield it. */
  method Dispatch(ups: seq<Upstream>, name: string) returns (r: Dispatched)
    requires forall i :: 0 <= i < |ups| ==> ups[i].Valid()
    ensures !r.Nowhere? ==> r.first < |ups|
    ensures !RunsOut(Trimmed(name)) ==>
              && !r.Crashed? && (r.To? ==> ups[r.first].Routes(Trimmed(name)))
              && forall i :: 0 <= i < Passed(ups, r) ==> !ups[i].Routes(Trimmed(name))
    ensures RunsOut(Trimmed(name)) ==>
              && !r.To? && (r.Crashed? ==> !ups[r.first].Shields(Trimmed(name)))
              && forall i :: 0 <= i < Passed(ups, r) ==> ups[i].Shields(Trimmed(name))
  {
    r := FirstAnswer(ups, Trimmed(name));
    DispatchExactly(ups, Trimmed(name), r);
  }

  method FirstAnswer(ups: seq<Upstream>, name: string) returns (r: Dispatched)
    requires forall i :: 0 <= i < |ups| ==> ups[i].Valid()
    ensures !r.Nowhere? ==> r.first < |ups| && ups[r.first].Asked(name) == if r.To? then Yes else Panic
    ensures forall i :: 0 <= i < Passed(ups, r) ==> ups[i].Asked(name).No?
  {
    for i := 0 to |ups|
      invariant forall j :: 0 <= j < i ==> ups[j].Asked(name).No?
    {
      var answer := ups[i].Match(name);
      if answer.Yes? {
        return To(i);
      } else if answer.Panic? {
        return Crashed(i);
      }
    }
    return Nowhere;
  }

  lemma DispatchExactly(ups: seq<Upstream>, name: string, r: Dispatched)
    requires forall i :: 0 <= i < |ups| ==> ups[i].Valid()
    requires !r.Nowhere? ==> r.first < |ups| && ups[r.first].Asked(name) == if r.To? then Yes else Panic
    requires forall i :: 0 <= i < Passed(ups, r) ==> ups[i].Asked(name).No?
    ensures if RunsOut(name) then !r.To? && (r.Crashed? ==> !ups[r.first].Shields(name))
            else !r.Crashed? && (r.To? ==> ups[r.first].Routes(name))
    ensures forall i :: 0 <= i < Passed(ups, r) ==> if RunsOut(name) then ups[i].Shields(name) else !ups[i].Routes(name)
  {
    if !r.Nowhere? {
      ups[r.first].AskedExactly(name);
    }
    forall i | 0 <= i < Passed(ups, r)
      ensures if RunsOut(name) then ups[i].Shields(name) else !ups[i].Routes(name)
    {
      ups[i].AskedExactly(name);
    }
  }

  /** A query can bring such a name: a label that ends in a dot is written with an escaped dot, which
      trimming leaves at the end. The search for it panics in every block that does not shield it, as
      in one without any names. */
  lemma EscapedDotCrashes(b: Block)
    requires Proper(b)
    ensures var name := Trimmed("foo\\..");
            && (AskBlock(b, name).Panic?
                <==> !(MatchNames(b.ignored, name) && (b.matchAny || MatchNames(FirstAsked(b), name))))
            && (b == Block(false, [], {}, {}) ==> AskBlock(b, name).Panic?)
  {
    var name := Trimmed("foo\\..");
    assert name == "foo\\.";
    RunsOutBelow(name, 4, "");
    AskBlockExactly(b, name);
    MatchExactly({}, name);
  }
}
