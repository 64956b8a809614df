/** The two loaders of name lists: line by line through a scanner for files, and split on newlines
    for fetched content. */
module NameLists {
  import opened Options
  import opened Domains
  import opened DomainIndex

  /** bufio.MaxScanTokenSize: a line this long or longer ends the scan. */
  const MAX_TOKEN: nat := 65536

  // ---------------------------------------------------------------- one line

  function StripComment(line: string): string {
    line[..IndexOf(line, '#')]
  }

  /** What a line asks to be added: the whole line, the domain of a dnsmasq server line, or nothing. */
  function Candidate(line: string): Option<string> {
    var text := StripComment(line);
    var f := Split(text, '/');
    if |f| != 3 then Some(text)
    else if f[0] != "server=" then None
    else Some(f[1])
  }

  function NamesOfLine(idna: Idna, line: string): set<string> {
    var c := Candidate(line);
    if c.None? || Stored(idna, c.value).None? then {} else {Stored(idna, c.value).value}
  }

  function NamesOf(idna: Idna, lines: seq<string>): set<string> {
    if lines == [] then {} else NamesOf(idna, lines[..|lines| - 1]) + NamesOfLine(idna, lines[|lines| - 1])
  }

  lemma {:induction false} NameFromLine(idna: Idna, lines: seq<string>, name: string) returns (i: nat)
    requires name in NamesOf(idna, lines)
    ensures i < |lines| && name in NamesOfLine(idna, lines[i])
  {
    var before := lines[..|lines| - 1];
    if name in NamesOf(idna, before) {
      i := NameFromLine(idna, before, name);
    } else {
      i := |lines| - 1;
    }
  }

  lemma {:induction false} LineGivesName(idna: Idna, lines: seq<string>, name: string, i: nat)
    requires i < |lines| && name in NamesOfLine(idna, lines[i])
    ensures name in NamesOf(idna, lines)
  {
    if i < |lines| - 1 {
      LineGivesName(idna, lines[..|lines| - 1], name, i);
    }
  }

  /** The names of a list are those of its lines. */
  lemma NamesOfMember(idna: Idna, lines: seq<string>, name: string)
    ensures name in NamesOf(idna, lines) <==> exists i :: 0 <= i < |lines| && name in NamesOfLine(idna, lines[i])
  {
    if name in NamesOf(idna, lines) {
      var i := NameFromLine(idna, lines, name);
    }
    forall i | 0 <= i < |lines| && name in NamesOfLine(idna, lines[i])
      ensures name in NamesOf(idna, lines)
    {
      LineGivesName(idna, lines, name, i);
    }
  }

  /** A comment is ignored wherever it starts. */
  lemma CommentIgnored(line: string, comment: string)
    requires '#' !in line
    ensures Candidate(line + "#" + comment) == Candidate(line)
  {
    assert line + "#" + comment == line + ("#" + comment);
    IndexOfConcat(line, "#" + comment, '#');
    IndexOfConcat(line, "", '#');
    assert line + "" == line;
    assert StripComment(line + "#" + comment) == line == StripComment(line);
  }

  /** A dnsmasq line adds its domain, whatever the server; any other key adds nothing; a line without
      slashes adds itself. */
  lemma DnsmasqLine(key: string, domain: string, server: string)
    requires '/' !in key && '/' !in domain && '/' !in server
    requires '#' !in key && '#' !in domain && '#' !in server
    ensures Candidate(key + "/" + domain + "/" + server) == if key == "server=" then Some(domain) else None
    ensures Candidate(domain) == Some(domain)
  {
    var line := key + "/" + domain + "/" + server;
    IndexOfConcat(line, "", '#');
    assert line + "" == line && StripComment(line) == line;
    assert line == key + ['/'] + (domain + ['/'] + server);
    SplitConcat(key, domain + ['/'] + server, '/');
    SplitConcat(domain, server, '/');
    IndexOfConcat(server, "", '/');
    assert server + "" == server;
    assert Split(server, '/') == [server];
    PlainLine(domain);
  }

  function Count(s: string, c: char): nat {
    if s == "" then 0 else (if s[0] == c then 1 else 0) + Count(s[1..], c)
  }

  lemma {:induction false} CountUpTo(s: string, c: char)
    ensures var i := IndexOf(s, c);
            Count(s, c) == if i == |s| then 0 else 1 + Count(s[i + 1..], c)
  {
    if s != "" && s[0] != c {
      CountUpTo(s[1..], c);
      var i := IndexOf(s, c);
      assert i < |s| ==> s[1..][i..] == s[i + 1..];
    }
  }

  /** Splitting gives one field more than there are separators. */
  lemma {:induction false} SplitCount(s: string, c: char)
    ensures |Split(s, c)| == Count(s, c) + 1
    decreases |s|
  {
    CountUpTo(s, c);
    var i := IndexOf(s, c);
    if i < |s| {
      SplitCount(s[i + 1..], c);
    }
  }

  /** A line is taken for a dnsmasq line exactly if it has two slashes; with any other number of them the
      whole line is added, up to a comment. */
  lemma OtherLine(line: string, comment: string)
    requires '#' !in line && Count(line, '/') != 2
    ensures Candidate(line) == Some(line) && Candidate(line + "#" + comment) == Some(line)
  {
    SplitCount(line, '/');
    CommentIgnored(line, comment);
    IndexOfConcat(line, "", '#');
    assert line + "" == line && StripComment(line) == line;
  }

  // ---------------------------------------------------------------- lines of a text

  function DropCR(line: string): string {
    if |line| > 0 && line[|line| - 1] == '\r' then line[..|line| - 1] else line
  }

  /** One carriage return is dropped, and nothing else ever. */
  lemma DropsOneCR(line: string)
    ensures DropCR(line + "\r") == line
    ensures line == "" || line[|line| - 1] != '\r' ==> DropCR(line) == line
  {
  }

  /** The next token of a scanner and the text after it; None at the end or at a line too long. */
  function Token(text: string): (r: Option<(string, string)>)
    ensures r.Some? ==> |r.value.1| < |text|
  {
    var i := IndexOf(text, '\n');
    if text == "" || i >= MAX_TOKEN then None
    else Some((DropCR(text[..i]), if i == |text| then "" else text[i + 1..]))
  }

  /** The tokens of a scanner over text. */
  function ScanLines(text: string): seq<string>
    decreases |text|
  {
    match Token(text)
    case None => []
    case Some((line, rest)) => [line] + ScanLines(rest)
  }

  method AddLine(names: DomainSet, idna: Idna, line: string)
    requires names.Valid()
    modifies names
    ensures names.Valid() && names.Names() == old(names.Names()) + NamesOfLine(idna, line)
  {
    var text := StripComment(line);
    var f := Split(text, '/');
    var str := text;
    if |f| == 3 {
      if f[0] != "server=" {
        return;
      }
      str := f[1];
    }
    assert Candidate(line) == Some(str);
    var ok := names.Add(idna, str);
  }

  /** parse, for files. */
  method ParseFile(idna: Idna, text: string) returns (names: DomainSet, totalLines: nat)
    ensures fresh(names) && names.Valid()
    ensures names.Names() == NamesOf(idna, ScanLines(text)) && totalLines == |ScanLines(text)|
  {
    names := new DomainSet();
    totalLines := 0;
    var rest := text;
    ghost var lines := ScanLines(text);
    while Token(rest).Some?
      invariant fresh(names) && names.Valid()
      invariant totalLines <= |lines| && ScanLines(rest) == lines[totalLines..]
      invariant names.Names() == NamesOf(idna, lines[..totalLines])
      decreases |rest|
    {
      var token := Token(rest).value;
      NextToken(rest, lines, totalLines);
      AddLine(names, idna, token.0);
      TakeOne(idna, lines, totalLines);
      totalLines := totalLines + 1;
      rest := token.1;
    }
    assert lines[..|lines|] == lines;
  }

  lemma NextToken(rest: string, lines: seq<string>, k: nat)
    requires k <= |lines| && ScanLines(rest) == lines[k..] && Token(rest).Some?
    ensures k < |lines| && lines[k] == Token(rest).value.0
    ensures ScanLines(Token(rest).value.1) == lines[k + 1..]
  {
    var token := Token(rest).value;
    assert ScanLines(rest) == [token.0] + ScanLines(token.1);
    assert lines[k..][1..] == lines[k + 1..];
  }

  lemma NamesOfAppend(idna: Idna, lines: seq<string>, line: string)
    ensures NamesOf(idna, lines + [line]) == NamesOf(idna, lines) + NamesOfLine(idna, line)
  {
    assert (lines + [line])[..|lines|] == lines;
  }

  lemma TakeOne(idna: Idna, lines: seq<string>, k: nat)
    requires k < |lines|
    ensures NamesOf(idna, lines[..k + 1]) == NamesOf(idna, lines[..k]) + NamesOfLine(idna, lines[k])
  {
    assert lines[..k + 1][..k] == lines[..k];
  }

  /** The loop in updateItemFromUrl. */
  method ParseContent(idna: Idna, content: string) returns (names: DomainSet, totalLines: nat)
    ensures fresh(names) && names.Valid()
    ensures names.Names() == NamesOf(idna, Split(content, '\n')) && totalLines == |Split(content, '\n')|
  {
    names := new DomainSet();
    totalLines := 0;
    var lines := Split(content, '\n');
    for k := 0 to |lines|
      invariant fresh(names) && names.Valid() && totalLines == k
      invariant names.Names() == NamesOf(idna, lines[..k])
    {
      totalLines := totalLines + 1;
      AddLine(names, idna, lines[k]);
      TakeOne(idna, lines, k);
    }
    assert lines[..|lines|] == lines;
  }

  // ---------------------------------------------------------------- the loaders agree

  ghost predicate ShortLines(text: string) {
    forall i :: 0 <= i < |Split(text, '\n')| ==> |Split(text, '\n')[i]| < 65536
  }

  predicate EndsLine(text: string) {
    text == "" || text[|text| - 1] == '\n'
  }

  lemma SplitStep(text: string, i: nat)
    requires i == IndexOf(text, '\n') < |text|
    ensures Split(text, '\n') == [text[..i]] + Split(text[i + 1..], '\n')
  {
  }

  lemma ScanStep(text: string, i: nat)
    requires i == IndexOf(text, '\n') < |text| && i < MAX_TOKEN
    ensures ScanLines(text) == [DropCR(text[..i])] + ScanLines(text[i + 1..])
  {
    assert Token(text) == Some((DropCR(text[..i]), text[i + 1..]));
  }

  lemma ShortRest(text: string, i: nat)
    requires i == IndexOf(text, '\n') < |text|
    ensures ShortLines(text) <==> i < MAX_TOKEN && ShortLines(text[i + 1..])
  {
    SplitStep(text, i);
    var f, g := Split(text, '\n'), Split(text[i + 1..], '\n');
    assert f[0] == text[..i];
    if ShortLines(text) {
      assert |f[0]| < MAX_TOKEN;
      assert forall k :: 0 <= k < |g| ==> g[k] == f[k + 1];
    }
    if i < MAX_TOKEN && ShortLines(text[i + 1..]) {
      assert forall k :: 1 <= k < |f| ==> f[k] == g[k - 1];
    }
  }

  function Dropped(lines: seq<string>): (r: seq<string>)
    ensures |r| == |lines| && forall i :: 0 <= i < |lines| ==> r[i] == DropCR(lines[i])
  {
    seq(|lines|, i requires 0 <= i < |lines| => DropCR(lines[i]))
  }

  /** What splitting has after the lines of the scanner: an empty line behind a final newline. */
  function Tail(text: string): seq<string> {
    if EndsLine(text) then [""] else []
  }

  /** With lines below the limit the scanner yields the split lines, less a carriage return at the end
      of each, and less the empty one after a final newline. */
  lemma {:induction false} ScanIsDropped(text: string)
    requires ShortLines(text)
    ensures Dropped(Split(text, '\n')) == ScanLines(text) + Tail(text)
    decreases |text|
  {
    var i := IndexOf(text, '\n');
    if i < |text| {
      ShortRest(text, i);
      SplitStep(text, i);
      ScanStep(text, i);
      ScanIsDropped(text[i + 1..]);
      SameEnd(text, i);
      DroppedCons(text[..i], Split(text[i + 1..], '\n'));
      Regroup([DropCR(text[..i])], ScanLines(text[i + 1..]), Tail(text));
    } else {
      LastLine(text);
    }
  }

  lemma DroppedCons(line: string, lines: seq<string>)
    ensures Dropped([line] + lines) == [DropCR(line)] + Dropped(lines)
  {
  }

  lemma SameEnd(text: string, i: nat)
    requires i < |text| && text[i] == '\n'
    ensures EndsLine(text[i + 1..]) == EndsLine(text)
  {
  }

  lemma Regroup(a: seq<string>, b: seq<string>, c: seq<string>)
    ensures a + (b + c) == (a + b) + c
  {
  }

  lemma LastLine(text: string)
    requires IndexOf(text, '\n') == |text| && ShortLines(text)
    ensures Dropped(Split(text, '\n')) == ScanLines(text) + Tail(text)
  {
    assert Split(text, '\n') == [text];
    assert Split(text, '\n')[0] == text;
    assert |text| < MAX_TOKEN;
    if text == "" {
      assert Token(text) == None;
    } else {
      assert text[..|text|] == text;
      assert Token(text) == Some((DropCR(text), ""));
    }
  }

  predicate EndsCR(line: string) {
    line != "" && line[|line| - 1] == '\r'
  }

  /** A line at the limit ends the scan, and with it all lines from there on are lost: the error of the
      scanner is never looked at. */
  lemma {:induction false} LongLineLosesLines(text: string)
    requires !ShortLines(text)
    ensures |ScanLines(text)| + |Tail(text)| < |Split(text, '\n')|
    decreases |text|
  {
    var i := IndexOf(text, '\n');
    if i < |text| {
      SplitStep(text, i);
      ShortRest(text, i);
      SameEnd(text, i);
      if i < MAX_TOKEN {
        ScanStep(text, i);
        LongLineLosesLines(text[i + 1..]);
      } else {
        assert Token(text) == None;
      }
    } else {
      assert Split(text, '\n') == [text];
      assert Token(text) == None;
    }
  }

  /** For every text, the two loaders see the same lines exactly when all lines are below the limit and
      none ends in a carriage return. */
  lemma SameLinesExactly(text: string)
    ensures Split(text, '\n') == ScanLines(text) + Tail(text)
            <==> ShortLines(text) && forall i :: 0 <= i < |Split(text, '\n')| ==> !EndsCR(Split(text, '\n')[i])
  {
    var lines := Split(text, '\n');
    if ShortLines(text) {
      ScanIsDropped(text);
      forall i | 0 <= i < |lines|
        ensures Dropped(lines)[i] == lines[i] <==> !EndsCR(lines[i])
      {
      }
    } else {
      LongLineLosesLines(text);
    }
  }

  /** A carriage return at the end does no harm in a comment and in the server of a dnsmasq line. */
  predicate HarmlessCR(line: string) {
    EndsCR(line) ==> '#' in line || |Split(line, '/')| == 3
  }

  lemma {:induction false} SplitSnoc(a: string, x: char, c: char)
    requires x != c
    ensures var f, g := Split(a, c), Split(a + [x], c);
            |f| == |g| && forall i :: 0 <= i < |f| - 1 ==> f[i] == g[i]
    decreases |a|
  {
    var i, b := IndexOf(a, c), a + [x];
    if i < |a| {
      FirstOf(b, i, c);
      assert b[..i] == a[..i] && b[i + 1..] == a[i + 1..] + [x];
      SplitSnoc(a[i + 1..], x, c);
    } else {
      assert IndexOf(b, c) == |b|;
    }
  }

  lemma CommentDropped(line: string)
    requires EndsCR(line) && '#' in line
    ensures StripComment(DropCR(line)) == StripComment(line)
  {
    var i := IndexOf(line, '#');
    FirstOf(DropCR(line), i, '#');
    assert DropCR(line)[..i] == line[..i];
  }

  lemma NoComment(line: string)
    requires '#' !in line
    ensures StripComment(line) == line
  {
    assert IndexOf(line, '#') == |line| && line[..|line|] == line;
  }

  /** Dropping it leaves what a line adds as it is, exactly then. */
  lemma HarmlessExactly(line: string)
    ensures Candidate(DropCR(line)) == Candidate(line) <==> HarmlessCR(line)
  {
    if EndsCR(line) {
      if '#' in line {
        CommentDropped(line);
      } else {
        var d := DropCR(line);
        assert line == d + ['\r'];
        SplitSnoc(d, '\r', '/');
        NoComment(line);
        NoComment(d);
      }
    }
  }

  lemma {:induction false} SameCandidates(idna: Idna, a: seq<string>, b: seq<string>)
    requires |a| == |b| && forall i :: 0 <= i < |a| ==> Candidate(a[i]) == Candidate(b[i])
    ensures NamesOf(idna, a) == NamesOf(idna, b)
  {
    if a != [] {
      SameCandidates(idna, a[..|a| - 1], b[..|b| - 1]);
    }
  }

  /** The file loader and the URL loader build the same set from the same text, whatever its trailing
      newlines, comments and dnsmasq lines, if its carriage returns at line ends do no harm. */
  lemma LoadersAgree(idna: Idna, text: string)
    requires ShortLines(text) && forall i :: 0 <= i < |Split(text, '\n')| ==> HarmlessCR(Split(text, '\n')[i])
    requires idna("").None? || idna("") == Some("")
    ensures NamesOf(idna, ScanLines(text)) == NamesOf(idna, Split(text, '\n'))
  {
    var lines := Split(text, '\n');
    ScanIsDropped(text);
    forall i | 0 <= i < |lines|
      ensures Candidate(Dropped(lines)[i]) == Candidate(lines[i])
    {
      HarmlessExactly(lines[i]);
    }
    SameCandidates(idna, Dropped(lines), lines);
    if !EndsLine(text) {
      assert ScanLines(text) + [] == ScanLines(text);
    } else {
      NamesOfAppend(idna, ScanLines(text), "");
      EmptyLine(idna);
    }
  }

  lemma EmptyLine(idna: Idna)
    requires idna("").None? || idna("") == Some("")
    ensures NamesOfLine(idna, "") == {}
  {
    assert StripComment("") == "" && Split("", '/') == [""];
    DomainNameNotEmpty("");
    assert !LabelOk(Split("", '.')[0]);
  }

  /** A carriage return before a newline is dropped by one loader only. */
  lemma CarriageReturnDiffers(idna: Idna)
    requires idna("a\r") == Some("a\r")
    ensures NamesOf(idna, ScanLines("a\r")) == {"a"}
    ensures NamesOf(idna, Split("a\r", '\n')) == {"a\r"}
  {
    OneLine("a\r");
    NamesOfOne(idna, "a");
    NamesOfOne(idna, "a\r");
    PlainLine("a");
    PlainLine("a\r");
    StoredPlain(idna);
    assert DropCR("a\r") == "a";
  }

  lemma StoredLetter(idna: Idna)
    ensures Stored(idna, "a") == Some("a")
  {
    OneLabel("a");
    assert ToLower("a") == "a" && StringToDomain("a") == Some("a");
  }

  lemma StoredPlain(idna: Idna)
    requires idna("a\r") == Some("a\r")
    ensures Stored(idna, "a") == Some("a") && Stored(idna, "a\r") == Some("a\r")
  {
    StoredLetter(idna);
    OneLabel("a\r");
    assert ToLower("a\r") == "a\r";
    assert !LabelOk("a\r") by {
      assert !LetterDigitHyphen("a\r"[1]);
    }
    assert StringToDomain("a\r").None?;
  }

  lemma OneLine(text: string)
    requires '\n' !in text && 0 < |text| < MAX_TOKEN
    ensures ScanLines(text) == [DropCR(text)]
    ensures Split(text, '\n') == [text]
  {
    assert IndexOf(text, '\n') == |text|;
    assert text[..|text|] == text;
    assert Token(text) == Some((DropCR(text), ""));
  }

  lemma NamesOfOne(idna: Idna, line: string)
    ensures NamesOf(idna, [line]) == NamesOfLine(idna, line)
  {
    NamesOfAppend(idna, [], line);
    assert [] + [line] == [line];
  }

  lemma PlainLine(line: string)
    requires '#' !in line && '/' !in line
    ensures Candidate(line) == Some(line)
  {
    assert IndexOf(line, '#') == |line| && line[..|line|] == line;
    assert IndexOf(line, '/') == |line|;
  }
}
