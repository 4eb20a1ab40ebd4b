/**
  The text that is piped into iptables-restore (buildIPTablesRestorePayload in
  pkg/trafficmngr/iptables/iptables_restore.go), and a reader for it: a section per table, a command per
  line, words parted by spaces, and double quotes around what follows --comment.
 */
module RestorePayload {
  import opened Ip4
  import opened Text
  import opened IptablesBootstrap

  type Words = seq<string>

  datatype Section = Section(table: string, lines: seq<Words>)

  predicate IsComment(words: Words, i: nat)
    requires i < |words|
  {
    i > 0 && words[i - 1] == "--comment"
  }

  function Word(words: Words, i: nat): string
    requires i < |words|
  {
    if IsComment(words, i) then "\"" + words[i] + "\"" else words[i]
  }

  /** The words from the i-th on, as they are printed. */
  function Printed(words: Words, i: nat): string
    requires i <= |words|
    decreases |words| - i
  {
    if i == |words| then ""
    else Word(words, i) + (if i < |words| - 1 then " " else "") + Printed(words, i + 1)
  }

  function LinesText(lines: seq<Words>): string
  {
    if lines == [] then ""
    else
      var last := lines[|lines| - 1];
      LinesText(lines[..|lines| - 1]) + if last == [] then "" else Printed(last, 0) + "\n"
  }

  function Payload(sections: seq<Section>): string
  {
    if sections == [] then ""
    else
      var last := sections[|sections| - 1];
      Payload(sections[..|sections| - 1]) + "*" + last.table + "\n" + LinesText(last.lines) + "COMMIT\n"
  }

  // The reader.

  /** The words of a line; word is what has been read of one, and some says that one was begun. */
  function Tokens(s: string, word: string, quote: bool, some: bool): seq<string>
  {
    if s == [] then if some then [word] else []
    else if s[0] == '"' then Tokens(s[1..], word, !quote, true)
    else if s[0] == ' ' && !quote then (if some then [word] else []) + Tokens(s[1..], "", false, false)
    else Tokens(s[1..], word + [s[0]], quote, true)
  }

  function Read(lines: seq<string>, current: Option<Section>): seq<Section>
    decreases |lines|
  {
    if lines == [] then []
    else
      var line, rest := lines[0], lines[1..];
      match current
      case None => Read(rest, if line != [] && line[0] == '*' then Some(Section(line[1..], [])) else None)
      case Some(section) =>
        if line == "COMMIT" then [section] + Read(rest, None)
        else Read(rest, Some(section.(lines := section.lines + [Tokens(line, "", false, false)])))
  }

  /** A word the reader takes as it stands: something, without spaces, quotes and line feeds. */
  predicate PlainWord(w: string)
  {
    w != [] && ' ' !in w && QuotableWord(w)
  }

  predicate QuotableWord(w: string)
  {
    '"' !in w && '\n' !in w
  }

  /** A command line: it starts with a dash, and only what follows --comment may have spaces. */
  predicate Readable(words: Words)
  {
    && words != [] && words[0] != [] && words[0][0] == '-'
    && forall i :: 0 <= i < |words| ==> if IsComment(words, i) then QuotableWord(words[i]) else PlainWord(words[i])
  }

  lemma {:induction false} TokensPlain(w: string, tail: string, word: string)
    requires ' ' !in w && '"' !in w
    ensures Tokens(w + tail, word, false, word != []) == Tokens(tail, word + w, false, word + w != [])
  {
    if w == [] {
      assert w + tail == tail && word + w == word;
    } else {
      assert (w + tail)[1..] == w[1..] + tail;
      TokensPlain(w[1..], tail, word + [w[0]]);
      assert word + [w[0]] + w[1..] == word + w;
    }
  }

  lemma {:induction false} TokensQuoted(w: string, tail: string, word: string)
    requires '"' !in w
    ensures Tokens(w + "\"" + tail, word, true, true) == Tokens(tail, word + w, false, true)
  {
    var s := w + "\"" + tail;
    if w == [] {
      assert s == "\"" + tail && s[1..] == tail && word + w == word;
    } else {
      assert s[1..] == w[1..] + "\"" + tail;
      TokensQuoted(w[1..], tail, word + [w[0]]);
      assert word + [w[0]] + w[1..] == word + w;
    }
  }

  lemma TokensComment(w: string, tail: string)
    requires '"' !in w
    ensures Tokens("\"" + w + "\"" + tail, "", false, false) == Tokens(tail, w, false, true)
  {
    TokensQuoted(w, tail, "");
    assert "" + w == w;
    var s := "\"" + w + "\"" + tail;
    assert s[0] == '"' && s[1..] == w + "\"" + tail;
  }

  lemma TokensWord(words: Words, i: nat, tail: string)
    requires Readable(words) && i < |words|
    ensures Tokens(Word(words, i) + tail, "", false, false) == Tokens(tail, words[i], false, true)
  {
    hide Tokens;
    if IsComment(words, i) {
      TokensComment(words[i], tail);
    } else {
      TokensPlain(words[i], tail, "");
      assert "" + words[i] == words[i];
    }
  }

  lemma TokensAfter(word: string, rest: string)
    ensures Tokens(" " + rest, word, false, true) == [word] + Tokens(rest, "", false, false)
    ensures Tokens("", word, false, true) == [word] && Tokens("", "", false, false) == []
  {
    assert (" " + rest)[1..] == rest;
  }

  /** The words of a printed line are the words. */
  lemma {:induction false} TokensOfPrinted(words: Words, i: nat)
    requires Readable(words) && i <= |words|
    ensures Tokens(Printed(words, i), "", false, false) == words[i..]
    decreases |words| - i
  {
    hide Tokens, Readable, Word;
    if i == |words| {
      TokensAfter("", "");
    } else {
      var rest := Printed(words, i + 1);
      var tail := (if i < |words| - 1 then " " else "") + rest;
      TokensOfPrinted(words, i + 1);
      TokensWord(words, i, tail);
      TokensAfter(words[i], rest);
      assert Printed(words, i) == Word(words, i) + tail;
      assert words[i..] == [words[i]] + words[i + 1..];
      if i == |words| - 1 { assert tail == "" && words[i + 1..] == []; }
      hide Printed;
    }
  }

  lemma {:induction false} PrintedIsOneLine(words: Words, i: nat)
    requires Readable(words) && i <= |words|
    ensures OneLine(Printed(words, i))
    decreases |words| - i
  {
    if i < |words| { PrintedIsOneLine(words, i + 1); }
  }

  function PrintedLines(lines: seq<Words>): (r: seq<string>)
    ensures |r| == |lines|
  {
    seq(|lines|, i requires 0 <= i < |lines| => Printed(lines[i], 0))
  }

  function SectionLines(section: Section): seq<string>
  {
    ["*" + section.table] + PrintedLines(section.lines) + ["COMMIT"]
  }

  function TextLines(sections: seq<Section>): seq<string>
  {
    if sections == [] then []
    else TextLines(sections[..|sections| - 1]) + SectionLines(sections[|sections| - 1])
  }

  predicate ReadableSection(section: Section)
  {
    OneLine(section.table) && forall l :: l in section.lines ==> Readable(l)
  }

  predicate AllReadable(sections: seq<Section>)
  {
    forall s :: s in sections ==> ReadableSection(s)
  }

  lemma {:induction false} SplitLines(lines: seq<Words>, rest: string)
    requires forall l :: l in lines ==> Readable(l)
    ensures Split(LinesText(lines) + rest) == PrintedLines(lines) + Split(rest)
  {
    hide Readable, Printed, Split;
    if lines == [] {
      assert LinesText(lines) + rest == rest && PrintedLines(lines) + Split(rest) == Split(rest);
    } else {
      var front, last := lines[..|lines| - 1], lines[|lines| - 1];
      var text := Printed(last, 0);
      assert last != [] by { NotEmpty(last); }
      PrintedIsOneLine(last, 0);
      SplitLine(text, rest);
      SplitLines(front, text + "\n" + rest);
      assert LinesText(lines) + rest == LinesText(front) + (text + "\n" + rest);
      assert PrintedLines(lines) == PrintedLines(front) + [text];
    }
  }

  lemma NotEmpty(words: Words)
    requires Readable(words)
    ensures words != []
  {
  }

  lemma SplitSection(section: Section, rest: string)
    requires ReadableSection(section)
    ensures Split("*" + section.table + "\n" + LinesText(section.lines) + "COMMIT\n" + rest)
      == SectionLines(section) + Split(rest)
  {
    hide Readable, Printed, Split, LinesText;
    var body := LinesText(section.lines) + ("COMMIT\n" + rest);
    SplitLine("*" + section.table, body);
    SplitLines(section.lines, "COMMIT\n" + rest);
    SplitLine("COMMIT", rest);
    assert "COMMIT" + "\n" + rest == "COMMIT\n" + rest;
    assert "*" + section.table + "\n" + LinesText(section.lines) + "COMMIT\n" + rest
      == "*" + section.table + "\n" + body;
  }

  lemma {:induction false} SplitPayload(sections: seq<Section>, rest: string)
    requires AllReadable(sections)
    ensures Split(Payload(sections) + rest) == TextLines(sections) + Split(rest)
  {
    hide ReadableSection, Split, LinesText, SectionLines;
    if sections == [] {
      assert Payload(sections) + rest == rest && TextLines(sections) + Split(rest) == Split(rest);
    } else {
      var front, last := sections[..|sections| - 1], sections[|sections| - 1];
      var text := "*" + last.table + "\n" + LinesText(last.lines) + "COMMIT\n";
      SplitSection(last, rest);
      SplitPayload(front, text + rest);
      assert Payload(sections) + rest == Payload(front) + (text + rest);
    }
  }

  lemma {:induction false} ReadLines(table: string, done: seq<Words>, lines: seq<Words>, more: seq<string>)
    requires forall l :: l in lines ==> Readable(l)
    ensures Read(PrintedLines(lines) + ["COMMIT"] + more, Some(Section(table, done)))
      == [Section(table, done + lines)] + Read(more, None)
    decreases |lines|
  {
    hide Readable, Printed, Tokens;
    var all := PrintedLines(lines) + ["COMMIT"] + more;
    if lines == [] {
      assert all[0] == "COMMIT" && all[1..] == more && done + lines == done;
    } else {
      var first, rest := lines[0], lines[1..];
      assert all[0] == Printed(first, 0) && all[1..] == PrintedLines(rest) + ["COMMIT"] + more;
      PrintedStarts(first);
      TokensOfPrinted(first, 0);
      assert first[0..] == first;
      ReadLines(table, done + [first], rest, more);
      assert done + [first] + rest == done + lines;
    }
  }

  lemma PrintedStarts(words: Words)
    requires Readable(words)
    ensures Printed(words, 0) != "COMMIT"
  {
    assert Printed(words, 0)[0] == '-';
  }

  lemma {:induction false} ReadTextLines(sections: seq<Section>, more: seq<string>)
    requires AllReadable(sections)
    ensures Read(TextLines(sections) + more, None) == sections + Read(more, None)
  {
    hide Readable, ReadableSection, SectionLines, Read;
    if sections == [] {
      assert TextLines(sections) + more == more && sections + Read(more, None) == Read(more, None);
    } else {
      var front, last := sections[..|sections| - 1], sections[|sections| - 1];
      ReadSection(last, more);
      ReadTextLines(front, SectionLines(last) + more);
      assert TextLines(sections) + more == TextLines(front) + (SectionLines(last) + more);
      assert sections + Read(more, None) == front + ([last] + Read(more, None));
    }
  }

  lemma ReadSection(section: Section, more: seq<string>)
    requires ReadableSection(section)
    ensures Read(SectionLines(section) + more, None) == [section] + Read(more, None)
  {
    hide Readable, PrintedLines, Tokens;
    ReadLines(section.table, [], section.lines, more);
    assert [] + section.lines == section.lines;
    ReadHead(section.table, PrintedLines(section.lines) + ["COMMIT"] + more);
    assert SectionLines(section) + more == ["*" + section.table] + (PrintedLines(section.lines) + ["COMMIT"] + more);
    hide Read;
  }

  lemma ReadHead(table: string, rest: seq<string>)
    ensures Read(["*" + table] + rest, None) == Read(rest, Some(Section(table, [])))
  {
    assert ("*" + table)[1..] == table && (["*" + table] + rest)[1..] == rest;
  }

  /** The text reads back as the sections it was made of, comments with spaces included. */
  lemma PayloadReadsBack(sections: seq<Section>)
    requires AllReadable(sections)
    ensures Read(Split(Payload(sections)), None) == sections
  {
    assert Payload(sections) + "" == Payload(sections);
    SplitPayload(sections, "");
    ReadTextLines(sections, [""]);
    assert Read([""], None) == Read([""][1..], None) == [];
    hide Split, Read, Payload, TextLines;
  }

  // From the commands to the text.

  function LineOf(cmd: Command): Words
  {
    [if cmd.Delete? then "-D" else "-A", cmd.chain.name] + cmd.spec
  }

  /** The command a line of a table's section gives. */
  function CommandOf(table: string, words: Words): Option<Command>
  {
    if |words| < 2 then None
    else if words[0] == "-D" then Some(Delete(ChainId(table, words[1]), words[2..]))
    else if words[0] == "-A" then Some(Append(ChainId(table, words[1]), words[2..]))
    else None
  }

  lemma CommandRoundTrip(cmd: Command)
    ensures CommandOf(cmd.chain.table, LineOf(cmd)) == Some(cmd)
  {
    assert LineOf(cmd)[2..] == cmd.spec;
    assert "-D"[1] != "-A"[1];
  }

  function LinesOf(cmds: seq<Command>): (r: seq<Words>)
    ensures |r| == |cmds|
  {
    seq(|cmds|, i requires 0 <= i < |cmds| => LineOf(cmds[i]))
  }

  function SectionsOf(tables: Tables, order: seq<string>): (r: seq<Section>)
    requires forall t :: t in order ==> t in tables
    ensures |r| == |order|
  {
    seq(|order|, i requires 0 <= i < |order| => Section(order[i], LinesOf(tables[order[i]])))
  }

  /** What is still to be printed of a line, its line feed included. */
  function Remaining(words: Words, i: nat): string
    requires i <= |words|
  {
    if i == |words| then "" else Printed(words, i) + "\n"
  }

  lemma RemainingStep(words: Words, i: nat, text: string)
    requires i < |words|
    ensures text + Remaining(words, i)
      == text + Word(words, i) + (if i < |words| - 1 then " " else "\n") + Remaining(words, i + 1)
  {
    if i == |words| - 1 { assert Printed(words, i) == Word(words, i); }
  }

  method LineText(words: Words) returns (text: string)
    ensures text == if words == [] then "" else Printed(words, 0) + "\n"
  {
    hide Remaining;
    text := "";
    for i := 0 to |words|
      invariant text + Remaining(words, i) == Remaining(words, 0)
    {
      RemainingStep(words, i, text);
      if i > 0 && words[i - 1] == "--comment" {
        text := text + ("\"" + words[i] + "\"");
      } else {
        text := text + words[i];
      }
      if i < |words| - 1 {
        text := text + " ";
      } else {
        text := text + "\n";
      }
    }
    LineDone(words, text);
  }

  lemma LineDone(words: Words, text: string)
    ensures Remaining(words, 0) == if words == [] then "" else Printed(words, 0) + "\n"
    ensures text + Remaining(words, |words|) == text
  {
  }

  /** The tables come in some order, each once. */
  method BuildPayload(tables: Tables) returns (payload: string, order: seq<string>)
    ensures |order| == |tables| && forall t :: t in order <==> t in tables
    ensures payload == Payload(SectionsOf(tables, order))
  {
    hide Payload, LinesText;
    var todo := tables.Keys;
    payload, order := "", [];
    assert Payload(SectionsOf(tables, [])) == "" by { NoSections(tables); }
    while todo != {}
      invariant todo <= tables.Keys
      invariant |order| + |todo| == |tables| && forall t :: t in order <==> t in tables.Keys - todo
      invariant payload == Payload(SectionsOf(tables, order))
    {
      var t :| t in todo;
      var text := TableText(tables[t]);
      payload := payload + "*" + t + "\n" + text + "COMMIT\n";
      MoreSections(tables, order, t);
      todo, order := todo - {t}, order + [t];
    }
  }

  lemma NoSections(tables: Tables)
    ensures Payload(SectionsOf(tables, [])) == ""
  {
  }

  lemma MoreSections(tables: Tables, order: seq<string>, t: string)
    requires (forall x :: x in order ==> x in tables) && t in tables
    ensures Payload(SectionsOf(tables, order + [t])) ==
      Payload(SectionsOf(tables, order)) + "*" + t + "\n" + LinesText(LinesOf(tables[t])) + "COMMIT\n"
  {
    hide LinesText;
    var sections := SectionsOf(tables, order + [t]);
    assert sections[..|sections| - 1] == SectionsOf(tables, order);
  }

  method TableText(cmds: seq<Command>) returns (text: string)
    ensures text == LinesText(LinesOf(cmds))
  {
    hide Printed;
    text := "";
    for i := 0 to |cmds|
      invariant text == LinesText(LinesOf(cmds[..i]))
    {
      var line := LineText(LineOf(cmds[i]));
      text := text + line;
      var lines := LinesOf(cmds[..i + 1]);
      assert lines[..|lines| - 1] == LinesOf(cmds[..i]);
    }
    assert cmds[..|cmds|] == cmds;
  }

  /** The commands of every table are read back, in their order, whatever order the tables came in. */
  lemma TablesReadBack(tables: Tables, order: seq<string>, k: nat, i: nat)
    requires (forall t :: t in order <==> t in tables) && Sorted(tables)
    requires AllReadable(SectionsOf(tables, order))
    requires k < |order| && i < |tables[order[k]]|
    ensures var sections := Read(Split(Payload(SectionsOf(tables, order))), None);
      && |sections| == |order| && sections[k].table == order[k] && |sections[k].lines| == |tables[order[k]]|
      && CommandOf(order[k], sections[k].lines[i]) == Some(tables[order[k]][i])
  {
    PayloadReadsBack(SectionsOf(tables, order));
    var cmd := tables[order[k]][i];
    assert cmd in tables[order[k]] && cmd.chain.table == order[k];
    CommandRoundTrip(cmd);
    hide Read, Split, Payload, AllReadable, CommandOf;
  }

  /** A word that needs no quotes and does not ask for any. */
  predicate SimpleWord(w: string)
  {
    PlainWord(w) && w != "--comment"
  }

  predicate Simple(words: Words)
  {
    forall w :: w in words ==> SimpleWord(w)
  }

  /** A line with one comment in it can be read back. */
  lemma CommentLine(head: Words, comment: string, tail: Words)
    requires Simple(head) && Simple(tail) && QuotableWord(comment) && comment != "--comment"
    requires head != [] && head[0] != [] && head[0][0] == '-'
    ensures Readable(head + ["--comment", comment] + tail)
  {
    hide PlainWord, QuotableWord;
    var words, n := head + ["--comment", comment] + tail, |head|;
    CommentWord();
    forall i | 0 <= i < |words| ensures if IsComment(words, i) then QuotableWord(words[i]) else PlainWord(words[i]) {
      if i < n {
        assert words[i] == head[i] && head[i] in head;
        assert i > 0 ==> words[i - 1] == head[i - 1] && head[i - 1] in head;
      } else if i > n + 1 {
        var j := i - n - 2;
        assert words[i] == tail[j] && tail[j] in tail;
        assert j > 0 ==> words[i - 1] == tail[j - 1] && tail[j - 1] in tail;
      }
    }
  }

  lemma CommentWord()
    ensures PlainWord("--comment")
  {
  }

  lemma SimpleJoin(a: Words, b: Words)
    requires Simple(a) && Simple(b)
    ensures Simple(a + b)
  {
    hide SimpleWord;
  }

  /** A rule as all of flannel's are: some matches, a comment, and what to do. */
  function Commented(more: Words, comment: string, target: Words): Spec
  {
    more + ["-m", "comment", "--comment", comment, "-j"] + target
  }

  /** Both lines built for such a rule can be read back. */
  lemma CommentedLine(cmd: Command, more: Words, comment: string, target: Words)
    requires cmd.spec == Commented(more, comment, target) && SimpleWord(cmd.chain.name)
    requires Simple(more) && Simple(target) && QuotableWord(comment) && comment != "--comment"
    ensures Readable(LineOf(cmd))
  {
    hide SimpleWord, QuotableWord, Readable;
    Verbs();
    var verb := [if cmd.Delete? then "-D" else "-A", cmd.chain.name];
    assert Simple(verb) && Simple(["-m", "comment"]) && Simple(["-j"]);
    SimpleJoin(verb, more);
    SimpleJoin(verb + more, ["-m", "comment"]);
    SimpleJoin(["-j"], target);
    CommentLine(verb + more + ["-m", "comment"], comment, ["-j"] + target);
    assert LineOf(cmd) == verb + more + ["-m", "comment"] + ["--comment", comment] + (["-j"] + target);
    hide Simple;
  }

  lemma Verbs()
    ensures SimpleWord("-D") && SimpleWord("-A") && SimpleWord("-m") && SimpleWord("comment") && SimpleWord("-j")
  {
  }

  lemma Matches()
    ensures SimpleWord("-s") && SimpleWord("-d") && SimpleWord("!") && SimpleWord("-m")
    ensures SimpleWord("mark") && SimpleWord("--mark")
  {
  }

  lemma Targets()
    ensures SimpleWord("RETURN") && SimpleWord("ACCEPT")
  {
  }

  lemma LongTargets()
    ensures SimpleWord("MASQUERADE") && SimpleWord("--random-fully")
  {
  }

  lemma Values()
    ensures SimpleWord("0x4000/0x4000") && SimpleWord("224.0.0.0/4")
  {
  }

  lemma Chain(name: string)
    requires name in {"POSTROUTING", "FORWARD", POSTROUTING_CHAIN, FORWARD_CHAIN}
    ensures SimpleWord(name)
  {
  }

  lemma Comments()
    ensures QuotableWord("flanneld masq") && "flanneld masq" != "--comment"
    ensures QuotableWord("flanneld forward") && "flanneld forward" != "--comment"
  {
    assert |"flanneld masq"| != |"--comment"| && |"flanneld forward"| != |"--comment"|;
  }

  /** The commands built for a rule. */
  predicate BuiltFor(r: Rule, cmd: Command)
  {
    cmd == Delete(r.Id(), r.spec) || cmd == Append(r.Id(), r.spec)
  }

  /** Every line built for the forwarding rules of a network can be read back. */
  lemma ForwardRulesReadable(network: string, i: nat, cmd: Command)
    requires SimpleWord(network) && i < |ForwardRules(network)| && BuiltFor(ForwardRules(network)[i], cmd)
    ensures Readable(LineOf(cmd))
  {
    hide SimpleWord, QuotableWord, Readable, LineOf;
    Chain(cmd.chain.name);
    Matches();
    Targets();
    Comments();
    Chain(FORWARD_CHAIN);
    if i == 0 {
      assert cmd.spec == Commented([], "flanneld forward", [FORWARD_CHAIN]);
      CommentedLine(cmd, [], "flanneld forward", [FORWARD_CHAIN]);
    } else {
      var more := [if i == 1 then "-s" else "-d", network];
      assert cmd.spec == Commented(more, "flanneld forward", ["ACCEPT"]);
      CommentedLine(cmd, more, "flanneld forward", ["ACCEPT"]);
    }
  }

  /** What the masquerading rules in flannel's chain match on, and their targets. */
  function MasqParts(cluster: string, pod: string, random: bool, i: nat): (Words, Words)
  {
    var masquerade := ["MASQUERADE"] + if random then ["--random-fully"] else [];
    match i
    case 1 => (["-m", "mark", "--mark", "0x4000/0x4000"], ["RETURN"])
    case 2 => (["-s", pod, "-d", cluster], ["RETURN"])
    case 3 => (["-s", cluster, "-d", pod], ["RETURN"])
    case 4 => (["!", "-s", cluster, "-d", pod], ["RETURN"])
    case 5 => (["-s", cluster, "!", "-d", "224.0.0.0/4"], masquerade)
    case 6 => (["!", "-s", cluster, "-d", cluster], masquerade)
    case _ => ([], [POSTROUTING_CHAIN])
  }

  lemma MasqPartsSimple(cluster: string, pod: string, random: bool, i: nat)
    requires SimpleWord(cluster) && SimpleWord(pod) && i < 7
    ensures var (more, target) := MasqParts(cluster, pod, random, i); Simple(more) && Simple(target)
  {
    hide SimpleWord;
    Matches();
    Targets();
    LongTargets();
    Values();
    Chain(POSTROUTING_CHAIN);
  }

  lemma MasqSpec(cluster: string, pod: string, random: bool, i: nat)
    requires i < 7
    ensures var (more, target) := MasqParts(cluster, pod, random, i);
      MasqRules(cluster, pod, random)[i].spec == Commented(more, "flanneld masq", target)
  {
    var (more, target) := MasqParts(cluster, pod, random, i);
    if 0 < i { assert MasqRules(cluster, pod, random)[i] == Masq(more, target); }
  }

  /** Every line built for the masquerading rules can be read back. */
  lemma MasqRulesReadable(cluster: string, pod: string, random: bool, i: nat, cmd: Command)
    requires SimpleWord(cluster) && SimpleWord(pod) && i < |MasqRules(cluster, pod, random)|
    requires BuiltFor(MasqRules(cluster, pod, random)[i], cmd)
    ensures Readable(LineOf(cmd))
  {
    hide SimpleWord, QuotableWord, Readable, LineOf, Simple, Commented, MasqParts;
    Chain(cmd.chain.name);
    Comments();
    MasqPartsSimple(cluster, pod, random, i);
    MasqSpec(cluster, pod, random, i);
    var (more, target) := MasqParts(cluster, pod, random, i);
    CommentedLine(cmd, more, "flanneld masq", target);
  }

  lemma {:induction false} BuiltFrom(chains: Chains, rules: seq<Rule>, append: bool, cmd: Command)
    requires cmd in Built(chains, rules, append)
    ensures exists i :: 0 <= i < |rules| && BuiltFor(rules[i], cmd)
  {
    var n := |rules| - 1;
    if cmd in Entry(Has(chains, rules[n]), rules[n], append) {
      assert BuiltFor(rules[n], cmd);
    } else {
      BuiltFrom(chains, rules[..n], append, cmd);
      var i :| 0 <= i < n && BuiltFor(rules[..n][i], cmd);
      assert BuiltFor(rules[i], cmd);
    }
  }

  /** Rules whose lines can be read back make payloads that can. */
  lemma BuiltReadable(chains: Chains, rules: seq<Rule>, append: bool, tables: Tables, order: seq<string>)
    requires Grouped(tables, Built(chains, rules, append)) && forall t :: t in order <==> t in tables
    requires forall t :: t in tables ==> OneLine(t)
    requires forall i, cmd :: 0 <= i < |rules| && BuiltFor(rules[i], cmd) ==> Readable(LineOf(cmd))
    ensures AllReadable(SectionsOf(tables, order))
  {
    hide Readable, LineOf, BuiltFor, Built, OfTable;
    forall section | section in SectionsOf(tables, order) ensures ReadableSection(section) {
      var k :| 0 <= k < |order| && section == Section(order[k], LinesOf(tables[order[k]]));
      var t := order[k];
      assert t in order;
      forall l | l in section.lines ensures Readable(l) {
        var i :| 0 <= i < |tables[t]| && l == LineOf(tables[t][i]);
        OfTableHas(Built(chains, rules, append), t, tables[t][i]);
        BuiltFrom(chains, rules, append, tables[t][i]);
      }
    }
  }

  /** What is built for flannel's lists, to install or to remove them, can be read back. */
  lemma FlannelPayloadsReadable(chains: Chains, rules: seq<Rule>, append: bool, tables: Tables, order: seq<string>,
                                cluster: string, pod: string, random: bool)
    requires SimpleWord(cluster) && SimpleWord(pod)
    requires rules == MasqRules(cluster, pod, random) || rules == ForwardRules(cluster)
    requires Grouped(tables, Built(chains, rules, append)) && forall t :: t in order <==> t in tables
    requires forall t :: t in tables ==> OneLine(t)
    ensures Read(Split(Payload(SectionsOf(tables, order))), None) == SectionsOf(tables, order)
  {
    hide SimpleWord, Readable, LineOf, Grouped, Built, MasqRules, ForwardRules, Payload, Read, Split, SectionsOf,
      AllReadable;
    forall i, cmd | 0 <= i < |rules| && BuiltFor(rules[i], cmd) ensures Readable(LineOf(cmd)) {
      if rules == MasqRules(cluster, pod, random) {
        MasqRulesReadable(cluster, pod, random, i, cmd);
      } else {
        ForwardRulesReadable(cluster, i, cmd);
      }
    }
    BuiltReadable(chains, rules, append, tables, order);
    PayloadReadsBack(SectionsOf(tables, order));
  }
}
