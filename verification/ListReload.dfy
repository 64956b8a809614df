/** The two reload protocols with the two loaders: what a list that reloads answers from. */
module ListReload {
  import opened Options
  import opened Domains
  import opened DomainIndex
  import opened NameLists
  import P = PathReload
  import U = UrlReload

  /** A file is read by the scanner. */
  function FileConfig(idna: Idna, zero: P.Stamp): P.Config {
    P.Config(text => NamesOf(idna, ScanLines(text)), zero)
  }

  /** Fetched content is split on newlines. */
  function UrlConfig(idna: Idna, hash: string -> nat): U.Config {
    U.Config(text => NamesOf(idna, Split(text, '\n')), hash)
  }

  lemma TwoTexts(idna: Idna)
    ensures NamesOf(idna, ScanLines("")) != NamesOf(idna, ScanLines("a"))
  {
    assert Token("") == None && ScanLines("") == [];
    OneLine("a");
    assert DropCR("a") == "a";
    NamesOfOne(idna, "a");
    PlainLine("a");
    StoredLetter(idna);
    assert "a" in NamesOf(idna, ScanLines("a"));
  }

  /** For every history of a list file, updates that complete on the stable file leave what the file
      loader makes of its content, exactly when no earlier version has the time and size of the last
      one. */
  lemma FileReloadExactly(idna: Idna, zero: P.Stamp, versions: seq<P.Version>)
    requires versions != [] && versions[|versions| - 1].stamp != zero
    ensures P.AlwaysCoherent(FileConfig(idna, zero), versions) <==> P.LastStampNew(versions)
  {
    TwoTexts(idna);
    P.CoherentExactly(FileConfig(idna, zero), versions, "", "a");
  }

  lemma ParsedNames(idna: Idna, zero: P.Stamp, hash: string -> nat, text: string)
    ensures FileConfig(idna, zero).parse(text) == NamesOf(idna, ScanLines(text))
    ensures UrlConfig(idna, hash).parse(text) == NamesOf(idna, Split(text, '\n'))
  {
  }

  /** A list kept in a file and the same list fetched from a URL come to the same names, each through
      any run of its own protocol, once an update of each has completed on the same text. */
  lemma FileAndUrlAgree(idna: Idna, zero: P.Stamp, f: P.State, fileStep: P.Step, i: nat,
                        hash: string -> nat, contents: iset<string>, u: U.State, urlStep: U.Step, j: nat)
    requires var cfg := FileConfig(idna, zero);
             && P.Reachable(cfg, f) && P.Enabled(cfg, f, fileStep) && P.CompletesStable(cfg, f, fileStep, i)
             && P.LastStampNew(f.versions) && f.versions[P.Current(f)].stamp != zero
    requires var cfg := UrlConfig(idna, hash);
             && U.Reachable(cfg, u) && (forall c :: c in u.fetched ==> c in contents) && U.HashTells(cfg, contents)
             && U.Enabled(u, urlStep) && U.Completes(cfg, u, urlStep, j)
    requires var text := f.versions[P.Current(f)].content;
             && u.updaters[j].content == text
             && ShortLines(text) && forall k :: 0 <= k < |Split(text, '\n')| ==> HarmlessCR(Split(text, '\n')[k])
    requires idna("").None? || idna("") == Some("")
    ensures P.Apply(FileConfig(idna, zero), f, fileStep).names == U.Apply(UrlConfig(idna, hash), u, urlStep).names
  {
    var text := f.versions[P.Current(f)].content;
    P.StableUpdateIsCoherent(FileConfig(idna, zero), f, fileStep, i);
    U.UpdateTakesEffect(UrlConfig(idna, hash), contents, u, urlStep, j);
    LoadersAgree(idna, text);
    ParsedNames(idna, zero, hash, text);
  }
}
