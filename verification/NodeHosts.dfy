/**
  The managed block in the CoreDNS hosts file (mergeManagedNodeHosts in
  pkg/cloudflaremeshoperator/nodehosts.go): the operator's hosts stand between two marker lines, and
  everything else in the file belongs to somebody else and is kept.
 */
module NodeHosts {
  import opened Text

  datatype Error = DuplicateBegin | EndWithoutBegin | BeginWithoutEnd

  datatype Result<T> = Ok(value: T) | Err(error: Error)

  const BEGIN_MARKER := "# BEGIN cloudflare-mesh-operator"

  const END_MARKER := "# END cloudflare-mesh-operator"

  /** White space as Unicode has it, which is what TrimSpace goes by. */
  predicate IsSpace(c: char)
  {
    || '\U{9}' <= c <= '\U{D}' || c == ' ' || c == '\U{85}' || c == '\U{A0}' || c == '\U{1680}'
    || '\U{2000}' <= c <= '\U{200A}' || c == '\U{2028}' || c == '\U{2029}' || c == '\U{202F}'
    || c == '\U{205F}' || c == '\U{3000}'
  }

  function TrimRight(s: string): string
  {
    if s != [] && IsSpace(s[|s| - 1]) then TrimRight(s[..|s| - 1]) else s
  }

  function TrimLeft(s: string): string
  {
    if s != [] && IsSpace(s[0]) then TrimLeft(s[1..]) else s
  }

  function TrimSpace(s: string): string
  {
    TrimLeft(TrimRight(s))
  }

  /** Each carriage return and line feed becomes a line feed. */
  function Unix(s: string): string
  {
    if s == [] then []
    else if |s| >= 2 && s[0] == '\r' && s[1] == '\n' then "\n" + Unix(s[2..])
    else [s[0]] + Unix(s[1..])
  }

  function WithoutFinalNewline(s: string): string
  {
    if s != [] && s[|s| - 1] == '\n' then s[..|s| - 1] else s
  }

  function Lines(text: string): seq<string>
  {
    Split(WithoutFinalNewline(Unix(text)))
  }

  function Rendered(lines: seq<string>): string
  {
    if lines == [] then "" else Join(lines) + "\n"
  }

  predicate IsBegin(line: string)
  {
    TrimSpace(line) == BEGIN_MARKER
  }

  predicate IsEnd(line: string)
  {
    TrimSpace(line) == END_MARKER
  }

  predicate Blank(line: string)
  {
    TrimSpace(line) == ""
  }

  // The scan.

  datatype Scan = Bad(error: Error) | Going(base: seq<string>, inBlock: bool, seen: bool)

  function ScanLine(s: Scan, line: string): Scan
  {
    if s.Bad? then s
    else if IsBegin(line) then
      if s.inBlock || s.seen then Bad(DuplicateBegin) else Going(s.base, true, true)
    else if IsEnd(line) then
      if !s.inBlock then Bad(EndWithoutBegin) else Going(s.base, false, s.seen)
    else if s.inBlock then s
    else Going(s.base + [line], s.inBlock, s.seen)
  }

  function ScanAll(lines: seq<string>): Scan
  {
    if lines == [] then Going([], false, false) else ScanLine(ScanAll(lines[..|lines| - 1]), lines[|lines| - 1])
  }

  function TrimBlanks(lines: seq<string>): (r: seq<string>)
    ensures r <= lines
    ensures r != [] ==> !Blank(r[|r| - 1])
    ensures forall i :: |r| <= i < |lines| ==> Blank(lines[i])
  {
    if lines != [] && Blank(lines[|lines| - 1]) then TrimBlanks(lines[..|lines| - 1]) else lines
  }

  // The block.

  predicate LexLess(a: string, b: string)
  {
    b != [] && (a == [] || a[0] < b[0] || (a[0] == b[0] && LexLess(a[1..], b[1..])))
  }

  ghost predicate Ascending(names: seq<string>)
  {
    forall i, j :: 0 <= i < j < |names| ==> LexLess(names[i], names[j])
  }

  function Insert(names: seq<string>, name: string): seq<string>
  {
    if names == [] || LexLess(name, names[0]) then [name] + names else [names[0]] + Insert(names[1..], name)
  }

  ghost function Sorted(names: set<string>): seq<string>
  {
    if names == {} then [] else var name :| name in names; Insert(Sorted(names - {name}), name)
  }

  type Hosts = map<string, string>

  function HostLine(hosts: Hosts, name: string): string
    requires name in hosts
  {
    hosts[name] + " " + name
  }

  function HostLines(hosts: Hosts, names: seq<string>): (r: seq<string>)
    requires forall n :: n in names ==> n in hosts
    ensures |r| == |names|
  {
    seq(|names|, i requires 0 <= i < |names| => HostLine(hosts, names[i]))
  }

  lemma LexTotal(a: string, b: string)
    ensures LexLess(a, b) || LexLess(b, a) || a == b
    ensures !(LexLess(a, b) && LexLess(b, a)) && !LexLess(a, a)
  {
    if a != [] && b != [] && a[0] == b[0] {
      LexTotal(a[1..], b[1..]);
      assert a == [a[0]] + a[1..] && b == [b[0]] + b[1..];
    }
    if a != [] { LexTotal(a[1..], a[1..]); }
  }

  lemma LexTransitive(a: string, b: string, c: string)
    requires LexLess(a, b) && LexLess(b, c)
    ensures LexLess(a, c)
  {
    if a != [] && a[0] == b[0] == c[0] { LexTransitive(a[1..], b[1..], c[1..]); }
  }

  lemma {:induction false} InsertSorts(names: seq<string>, name: string)
    requires Ascending(names) && name !in names
    ensures Ascending(Insert(names, name))
    ensures forall x :: x in Insert(names, name) <==> x in names || x == name
  {
    hide LexLess;
    if names != [] {
      var head, rest := names[0], names[1..];
      assert names == [head] + rest;
      LexTotal(head, name);
      if LexLess(name, head) {
        forall x | x in rest ensures LexLess(name, x) { LexTransitive(name, head, x); }
      } else {
        InsertSorts(rest, name);
        forall x | x in Insert(rest, name) ensures LexLess(head, x) { if x != name { assert x in rest; } }
      }
    }
  }

  lemma {:induction false} SortedSorts(names: set<string>)
    ensures Ascending(Sorted(names))
    ensures forall x :: x in Sorted(names) <==> x in names
  {
    hide LexLess, Insert;
    if names != {} {
      var name :| name in names && Sorted(names) == Insert(Sorted(names - {name}), name);
      SortedSorts(names - {name});
      InsertSorts(Sorted(names - {name}), name);
    }
  }

  /** The sorted order of a set of names is the only one. */
  lemma {:induction false} AscendingUnique(a: seq<string>, b: seq<string>)
    requires Ascending(a) && Ascending(b) && forall x :: x in a <==> x in b
    ensures a == b
  {
    hide LexLess;
    assert b != [] ==> b[0] in b;
    if a != [] {
      assert a[0] in a && b != [] && b[0] in b;
      FirstIsLeast(a, b[0]);
      FirstIsLeast(b, a[0]);
      LexTotal(a[0], b[0]);
      TailsAlike(a, b);
      AscendingUnique(a[1..], b[1..]);
      assert a == [a[0]] + a[1..] && b == [b[0]] + b[1..];
    }
  }

  lemma FirstIsLeast(names: seq<string>, x: string)
    requires Ascending(names) && x in names
    ensures names[0] == x || LexLess(names[0], x)
  {
    hide LexLess;
  }

  lemma TailsAlike(a: seq<string>, b: seq<string>)
    requires Ascending(a) && Ascending(b) && a != [] && b != [] && a[0] == b[0]
    requires forall x :: x in a <==> x in b
    ensures forall x :: x in a[1..] <==> x in b[1..]
  {
    HeadOnce(a);
    HeadOnce(b);
    assert a == [a[0]] + a[1..] && b == [b[0]] + b[1..];
    assert forall x :: x in a <==> x == a[0] || x in a[1..];
    assert forall x :: x in b <==> x == b[0] || x in b[1..];
  }

  lemma HeadOnce(names: seq<string>)
    requires Ascending(names) && names != []
    ensures names[0] !in names[1..]
  {
    hide LexLess;
    LexTotal(names[0], names[0]);
    assert forall i :: 0 <= i < |names| - 1 ==> names[1..][i] == names[i + 1];
  }

  /** The lines of a block, without the markers. */
  ghost function BlockBody(hosts: Hosts): seq<string>
  {
    SortedSorts(hosts.Keys);
    HostLines(hosts, Sorted(hosts.Keys))
  }

  /** The operator's block: the hosts, sorted by name, between the markers; no block when there are none. */
  ghost function Block(hosts: Hosts): seq<string>
  {
    if hosts.Keys == {} then [] else [BEGIN_MARKER] + BlockBody(hosts) + [END_MARKER]
  }

  /** The file with its block replaced. */
  ghost function Merged(current: string, hosts: Hosts): Result<string>
  {
    match ScanAll(Lines(current))
    case Bad(error) => Err(error)
    case Going(base, inBlock, _) =>
      if inBlock then Err(BeginWithoutEnd) else Ok(Rendered(TrimBlanks(base) + Block(hosts)))
  }

  lemma {:induction false} BadStays(lines: seq<string>, n: nat)
    requires n <= |lines| && ScanAll(lines[..n]).Bad?
    ensures ScanAll(lines) == ScanAll(lines[..n])
  {
    if n == |lines| {
      assert lines[..n] == lines;
    } else {
      assert lines[..|lines| - 1][..n] == lines[..n];
      BadStays(lines[..|lines| - 1], n);
    }
  }

  method SortNames(names: set<string>) returns (r: seq<string>)
    ensures r == Sorted(names)
  {
    hide LexLess, Insert, Sorted, Ascending;
    var todo := names;
    r := [];
    assert Ascending([]) by { NoneAscend(); }
    while todo != {}
      invariant todo <= names && Ascending(r)
      invariant forall x :: x in r <==> x in names - todo
    {
      var name :| name in todo;
      InsertSorts(r, name);
      r := Insert(r, name);
      todo := todo - {name};
    }
    SortedSorts(names);
    AscendingUnique(r, Sorted(names));
  }

  lemma NoneAscend()
    ensures Ascending([])
  {
  }

  method Merge(current: string, hosts: Hosts) returns (r: Result<string>)
    ensures r == Merged(current, hosts)
  {
    hide Lines, Sorted, TrimSpace, Join;
    var lines := Lines(current);
    var base: seq<string> := [];
    var inBlock, seen := false, false;
    for n := 0 to |lines|
      invariant ScanAll(lines[..n]) == Going(base, inBlock, seen)
    {
      var line := lines[n];
      assert lines[..n + 1][..n] == lines[..n];
      var trimmed := TrimSpace(line);
      if trimmed == BEGIN_MARKER {
        if inBlock || seen {
          BadStays(lines, n + 1);
          return Err(DuplicateBegin);
        }
        inBlock, seen := true, true;
      } else if trimmed == END_MARKER {
        if !inBlock {
          BadStays(lines, n + 1);
          return Err(EndWithoutBegin);
        }
        inBlock := false;
      } else if !inBlock {
        base := base + [line];
      }
    }
    assert lines[..|lines|] == lines;
    if inBlock {
      return Err(BeginWithoutEnd);
    }
    hide ScanAll;
    var kept := DropBlanks(base);
    var block := RenderBlock(hosts);
    base := kept + block;
    if base == [] {
      return Ok("");
    }
    return Ok(Join(base) + "\n");
  }

  method DropBlanks(lines: seq<string>) returns (r: seq<string>)
    ensures r == TrimBlanks(lines)
  {
    hide Blank;
    r := lines;
    while r != [] && Blank(r[|r| - 1])
      invariant TrimBlanks(r) == TrimBlanks(lines)
    {
      r := r[..|r| - 1];
    }
  }

  method RenderBlock(hosts: Hosts) returns (r: seq<string>)
    ensures r == Block(hosts)
  {
    hide Sorted, HostLine;
    var names := SortNames(hosts.Keys);
    SortedSorts(hosts.Keys);
    if names == [] {
      assert hosts.Keys == {};
      return [];
    }
    assert names[0] in names;
    r := [BEGIN_MARKER];
    for i := 0 to |names|
      invariant r == [BEGIN_MARKER] + HostLines(hosts, names[..i])
    {
      assert names[i] in names;
      r := r + [HostLine(hosts, names[i])];
      assert HostLines(hosts, names[..i + 1]) == HostLines(hosts, names[..i]) + [HostLine(hosts, names[i])];
    }
    assert names[..|names|] == names;
    r := r + [END_MARKER];
  }

  // What a file reads back as.

  predicate EndsInReturn(line: string)
  {
    line != [] && line[|line| - 1] == '\r'
  }

  function StripReturn(line: string): string
  {
    if EndsInReturn(line) then line[..|line| - 1] else line
  }

  function StripReturns(lines: seq<string>): (r: seq<string>)
    ensures |r| == |lines|
  {
    seq(|lines|, i requires 0 <= i < |lines| => StripReturn(lines[i]))
  }

  /** Reading a line followed by more text. */
  lemma {:induction false} UnixLine(line: string, rest: string)
    requires OneLine(line)
    ensures Unix(line + "\n" + rest) == StripReturn(line) + "\n" + Unix(rest)
  {
    var s := line + "\n" + rest;
    if line == [] {
      assert s == "\n" + rest && s[1..] == rest;
    } else if line == "\r" {
      assert s[2..] == rest;
    } else {
      UnixLine(line[1..], rest);
      assert s[1..] == line[1..] + "\n" + rest;
      assert s[0] == line[0] && s[1] == if |line| > 1 then line[1] else '\n';
      assert [line[0]] + StripReturn(line[1..]) == StripReturn(line);
    }
  }

  lemma {:induction false} UnixRendered(lines: seq<string>)
    requires AllOneLine(lines)
    ensures Unix(Rendered(lines)) == Rendered(StripReturns(lines))
  {
    if lines != [] {
      var line, rest := lines[0], lines[1..];
      UnixRendered(rest);
      UnixLine(line, Rendered(rest));
      RenderedMore(line, rest);
      RenderedMore(StripReturn(line), StripReturns(rest));
      assert [line] + rest == lines;
      assert [StripReturn(line)] + StripReturns(rest) == StripReturns(lines);
    }
  }

  lemma RenderedMore(line: string, rest: seq<string>)
    ensures Rendered([line] + rest) == line + "\n" + Rendered(rest)
  {
    if rest != [] { assert ([line] + rest)[1..] == rest; }
  }

  /** A file that was written reads back as its lines, less a carriage return at the end of each. */
  lemma LinesOfRendered(lines: seq<string>)
    requires AllOneLine(lines)
    ensures Lines(Rendered(lines)) == if lines == [] then [""] else StripReturns(lines)
  {
    var stripped := StripReturns(lines);
    UnixRendered(lines);
    assert AllOneLine(stripped) by {
      forall l | l in stripped ensures OneLine(l) {
        var i :| 0 <= i < |stripped| && stripped[i] == l;
        assert lines[i] in lines;
      }
    }
    if lines != [] {
      SplitJoin(stripped);
      assert WithoutFinalNewline(Join(stripped) + "\n") == Join(stripped);
    }
  }

  // What is kept.

  predicate IsMarker(line: string)
  {
    IsBegin(line) || IsEnd(line)
  }

  predicate Plain(lines: seq<string>)
  {
    forall l :: l in lines ==> !IsMarker(l)
  }

  lemma {:induction false} ScanPlain(lines: seq<string>, more: seq<string>)
    requires Plain(more) && ScanAll(lines).Going?
    ensures ScanAll(lines + more) ==
      var s := ScanAll(lines); Going(if s.inBlock then s.base else s.base + more, s.inBlock, s.seen)
  {
    hide IsBegin, IsEnd, ScanAll, Plain;
    var s := ScanAll(lines);
    if more == [] {
      assert lines + more == lines && s.base + more == s.base;
    } else {
      var front, last := more[..|more| - 1], more[|more| - 1];
      assert more == front + [last];
      PlainMore(front, last);
      ScanPlain(lines, front);
      ScanMore(lines + front, last);
      assert lines + more == lines + front + [last] && s.base + more == s.base + front + [last];
    }
  }

  lemma ScanMore(lines: seq<string>, line: string)
    ensures ScanAll(lines + [line]) == ScanLine(ScanAll(lines), line)
  {
    assert (lines + [line])[..|lines + [line]| - 1] == lines;
  }

  /** A file with one block: the lines around it are what is kept. */
  lemma ScanBlock(before: seq<string>, b: string, block: seq<string>, e: string, after: seq<string>)
    requires Plain(before) && Plain(block) && Plain(after) && IsBegin(b) && IsEnd(e)
    ensures ScanAll(before + [b] + block + [e] + after) == Going(before + after, false, true)
  {
    assert !IsBegin(e) by { assert |BEGIN_MARKER| != |END_MARKER|; }
    hide IsBegin, IsEnd;
    assert [] + before == before;
    assert ScanAll([]) == Going([], false, false);
    ScanPlain([], before);
    ScanMore(before, b);
    ScanPlain(before + [b], block);
    ScanMore(before + [b] + block, e);
    ScanPlain(before + [b] + block + [e], after);
  }

  /** The position of a block in a file: one begin marker, one end marker after it, and no other marker. */
  predicate BlockAt(lines: seq<string>, b: int, e: int)
  {
    && 0 <= b < e < |lines| && IsBegin(lines[b]) && IsEnd(lines[e])
    && Plain(lines[..b]) && Plain(lines[b + 1..e]) && Plain(lines[e + 1..])
  }

  /** A begin marker still waiting for its end. */
  predicate OpenAt(lines: seq<string>, b: int)
  {
    0 <= b < |lines| && IsBegin(lines[b]) && Plain(lines[..b]) && Plain(lines[b + 1..])
  }

  /** How the scan stands, in terms of where the markers are. */
  ghost predicate Describes(s: Scan, lines: seq<string>)
  {
    s.Going? ==>
      if !s.seen then !s.inBlock && Plain(lines) && s.base == lines
      else if s.inBlock then exists b :: OpenAt(lines, b) && s.base == lines[..b]
      else exists b, e :: BlockAt(lines, b, e) && s.base == lines[..b] + lines[e + 1..]
  }

  lemma PlainMore(lines: seq<string>, line: string)
    ensures Plain(lines + [line]) <==> Plain(lines) && !IsMarker(line)
  {
    hide IsMarker;
    assert forall l :: l in lines ==> l in lines + [line];
    assert line in lines + [line];
  }

  lemma OpenMore(lines: seq<string>, b: int, line: string)
    requires OpenAt(lines, b)
    ensures !IsMarker(line) ==> OpenAt(lines + [line], b) && (lines + [line])[..b] == lines[..b]
    ensures IsEnd(line) ==>
      BlockAt(lines + [line], b, |lines|) && (lines + [line])[..b] + (lines + [line])[|lines| + 1..] == lines[..b]
  {
    hide IsBegin, IsEnd;
    var more := lines + [line];
    assert more[..b] == lines[..b] && more[b + 1..] == lines[b + 1..] + [line];
    assert more[b + 1..|lines|] == lines[b + 1..] && more[|lines| + 1..] == [];
    PlainMore(lines[b + 1..], line);
  }

  lemma BlockMore(lines: seq<string>, b: int, e: int, line: string)
    requires BlockAt(lines, b, e) && !IsMarker(line)
    ensures BlockAt(lines + [line], b, e)
    ensures (lines + [line])[..b] + (lines + [line])[e + 1..] == lines[..b] + lines[e + 1..] + [line]
  {
    hide IsBegin, IsEnd;
    var more := lines + [line];
    assert more[..b] == lines[..b] && more[b + 1..e] == lines[b + 1..e] && more[e + 1..] == lines[e + 1..] + [line];
    PlainMore(lines[e + 1..], line);
  }

  lemma DescribesMore(s: Scan, lines: seq<string>, line: string)
    requires Describes(s, lines)
    ensures Describes(ScanLine(s, line), lines + [line])
  {
    hide IsBegin, IsEnd, Plain;
    if s.Going? {
      var more := lines + [line];
      if !s.seen {
        PlainMore(lines, line);
        if IsBegin(line) { OpenStarts(lines, line); }
      } else if s.inBlock {
        var b :| OpenAt(lines, b) && s.base == lines[..b];
        OpenMore(lines, b, line);
      } else if !IsMarker(line) {
        var b, e :| BlockAt(lines, b, e) && s.base == lines[..b] + lines[e + 1..];
        BlockMore(lines, b, e, line);
      }
    }
  }

  lemma OpenStarts(lines: seq<string>, line: string)
    requires Plain(lines) && IsBegin(line)
    ensures OpenAt(lines + [line], |lines|) && (lines + [line])[..|lines|] == lines
  {
  }

  lemma {:induction false} ScanDescribes(lines: seq<string>)
    ensures Describes(ScanAll(lines), lines)
  {
    if lines != [] {
      var front, last := lines[..|lines| - 1], lines[|lines| - 1];
      ScanDescribes(front);
      DescribesMore(ScanAll(front), front, last);
      assert front + [last] == lines;
    }
  }

  /**
    A file is accepted exactly when it has no marker, or one begin marker and then one end marker; what is
    kept is the file, or the file without the block, less the blank lines at its end.
   */
  lemma AcceptedIff(current: string, hosts: Hosts)
    ensures Merged(current, hosts).Ok? <==> Plain(Lines(current)) || exists b, e :: BlockAt(Lines(current), b, e)
    ensures Plain(Lines(current)) ==> Merged(current, hosts) == Ok(Rendered(TrimBlanks(Lines(current)) + Block(hosts)))
    ensures forall b, e :: BlockAt(Lines(current), b, e) ==>
      Merged(current, hosts) == Ok(Rendered(TrimBlanks(Lines(current)[..b] + Lines(current)[e + 1..]) + Block(hosts)))
  {
    var lines := Lines(current);
    hide Lines, Block, Rendered, TrimBlanks, IsBegin, IsEnd, Plain;
    ScanDescribes(lines);
    if Plain(lines) { ScanOnlyPlain(lines); }
    forall b, e | BlockAt(lines, b, e) ensures ScanAll(lines) == Going(lines[..b] + lines[e + 1..], false, true) {
      ScanBlock(lines[..b], lines[b], lines[b + 1..e], lines[e], lines[e + 1..]);
      assert lines[..b] + [lines[b]] + lines[b + 1..e] + [lines[e]] + lines[e + 1..] == lines;
    }
    hide ScanAll;
  }

  lemma ScanOnlyPlain(lines: seq<string>)
    requires Plain(lines)
    ensures ScanAll(lines) == Going(lines, false, false)
  {
    assert ScanAll([]) == Going([], false, false) && [] + lines == lines;
    ScanPlain([], lines);
  }

  /** What is kept of an accepted file. */
  function Kept(current: string): seq<string>
  {
    var s := ScanAll(Lines(current));
    if s.Going? then TrimBlanks(s.base) else []
  }

  lemma KeptIsPlain(current: string)
    ensures Plain(Kept(current)) && AllOneLine(Kept(current))
    ensures Kept(current) != [] ==> !Blank(Kept(current)[|Kept(current)| - 1])
  {
    hide ScanAll, IsMarker, TrimSpace, Unix;
    ScanKeeps(Lines(current));
    hide Lines;
    assert forall l :: l in Lines(current) ==> OneLine(l) by { LinesAreLines(current); }
  }

  lemma LinesAreLines(current: string)
    ensures forall l :: l in Lines(current) ==> OneLine(l)
  {
  }

  lemma {:induction false} ScanKeeps(lines: seq<string>)
    ensures ScanAll(lines).Going? ==> Plain(ScanAll(lines).base) && forall l :: l in ScanAll(lines).base ==> l in lines
  {
    hide IsBegin, IsEnd;
    if lines != [] {
      ScanKeeps(lines[..|lines| - 1]);
      assert lines == lines[..|lines| - 1] + [lines[|lines| - 1]];
    }
  }

  /** Hosts whose lines are lines and no markers. */
  ghost predicate CleanHosts(hosts: Hosts)
  {
    forall n :: n in hosts ==> OneLine(HostLine(hosts, n)) && !IsMarker(HostLine(hosts, n))
  }

  lemma StripKeepsTrim(line: string)
    ensures TrimSpace(StripReturn(line)) == TrimSpace(line)
  {
  }

  lemma StripsMarkers(lines: seq<string>)
    requires Plain(lines)
    ensures Plain(StripReturns(lines))
  {
    forall l | l in StripReturns(lines) ensures !IsMarker(l) {
      var i :| 0 <= i < |lines| && StripReturns(lines)[i] == l;
      assert lines[i] in lines;
      StripKeepsTrim(lines[i]);
    }
  }

  lemma StripsJoin(a: seq<string>, b: seq<string>)
    ensures StripReturns(a + b) == StripReturns(a) + StripReturns(b)
  {
  }

  lemma MarkersAreMarkers()
    ensures IsBegin(BEGIN_MARKER) && IsEnd(END_MARKER) && OneLine(BEGIN_MARKER) && OneLine(END_MARKER)
    ensures StripReturn(BEGIN_MARKER) == BEGIN_MARKER && StripReturn(END_MARKER) == END_MARKER
  {
    hide TrimSpace;
    TrimNothing(BEGIN_MARKER);
    TrimNothing(END_MARKER);
  }

  lemma TrimNothing(s: string)
    requires s != [] && !IsSpace(s[0]) && !IsSpace(s[|s| - 1])
    ensures TrimSpace(s) == s
  {
  }

  lemma BlockBodyPlain(hosts: Hosts)
    requires CleanHosts(hosts)
    ensures Plain(BlockBody(hosts)) && AllOneLine(BlockBody(hosts))
  {
    SortedSorts(hosts.Keys);
    hide Sorted;
    var names := Sorted(hosts.Keys);
    forall l | l in BlockBody(hosts) ensures !IsMarker(l) && OneLine(l) {
      var i :| 0 <= i < |names| && BlockBody(hosts)[i] == l;
      assert names[i] in names;
      assert l == HostLine(hosts, names[i]);
    }
  }

  lemma MergedIs(current: string, hosts: Hosts)
    requires Merged(current, hosts).Ok?
    ensures Merged(current, hosts) == Ok(Rendered(Kept(current) + Block(hosts)))
  {
  }

  lemma StripsTrimmed(lines: seq<string>)
    requires lines != [] ==> !Blank(lines[|lines| - 1])
    ensures TrimBlanks(StripReturns(lines)) == StripReturns(lines)
  {
    if lines != [] { StripKeepsTrim(lines[|lines| - 1]); }
  }

  /** The output, line by line: the kept lines, then the block. */
  lemma OutputLines(current: string, hosts: Hosts)
    requires Merged(current, hosts).Ok? && CleanHosts(hosts)
    ensures var kept, body := StripReturns(Kept(current)), StripReturns(BlockBody(hosts));
      && Lines(Merged(current, hosts).value) ==
           (if hosts.Keys != {} then kept + [BEGIN_MARKER] + body + [END_MARKER] else if kept == [] then [""] else kept)
      && Plain(kept) && Plain(body)
  {
    hide *;
    KeptIsPlain(current);
    BlockBodyPlain(hosts);
    StripsMarkers(Kept(current));
    StripsMarkers(BlockBody(hosts));
    MergedIs(current, hosts);
    OutputOf(Kept(current), hosts);
  }

  lemma OutputOf(kept: seq<string>, hosts: Hosts)
    requires AllOneLine(kept) && AllOneLine(BlockBody(hosts))
    ensures Lines(Rendered(kept + Block(hosts))) ==
      (if hosts.Keys != {} then StripReturns(kept) + [BEGIN_MARKER] + StripReturns(BlockBody(hosts)) + [END_MARKER]
       else if StripReturns(kept) == [] then [""] else StripReturns(kept))
  {
    hide BlockBody, Rendered, Lines, IsBegin, IsEnd, OneLine, StripReturns;
    if hosts.Keys != {} {
      MarkersAreMarkers();
      LinesOfBlock(kept, BEGIN_MARKER, BlockBody(hosts), END_MARKER);
      assert kept + Block(hosts) == kept + [BEGIN_MARKER] + BlockBody(hosts) + [END_MARKER];
    } else {
      assert kept + Block(hosts) == kept;
      LinesOfRendered(kept);
    }
  }

  lemma LinesOfBlock(kept: seq<string>, b: string, body: seq<string>, e: string)
    requires AllOneLine(kept) && AllOneLine(body) && OneLine(b) && OneLine(e) && StripReturn(b) == b
      && StripReturn(e) == e
    ensures Lines(Rendered(kept + [b] + body + [e])) == StripReturns(kept) + [b] + StripReturns(body) + [e]
  {
    hide Rendered, Lines, OneLine, StripReturn;
    LinesOfRendered(kept + [b] + body + [e]);
    StripsJoin(kept + [b] + body, [e]);
    StripsJoin(kept + [b], body);
    StripsJoin(kept, [b]);
    assert StripReturns([b]) == [b] && StripReturns([e]) == [e];
  }

  /**
    Reading the output again: it is accepted, what is kept of it is what was kept of the input, less a
    carriage return at the end of each line.
   */
  lemma OutputKeeps(current: string, hosts: Hosts)
    requires Merged(current, hosts).Ok? && CleanHosts(hosts)
    ensures var out := Merged(current, hosts).value;
      ScanAll(Lines(out)).Going? && !ScanAll(Lines(out)).inBlock && Kept(out) == StripReturns(Kept(current))
  {
    var kept, body := StripReturns(Kept(current)), StripReturns(BlockBody(hosts));
    var out := Merged(current, hosts).value;
    OutputLines(current, hosts);
    KeptIsPlain(current);
    StripsTrimmed(Kept(current));
    hide Merged, BlockBody, IsBegin, IsEnd, StripReturns, Plain;
    if hosts.Keys != {} {
      MarkersAreMarkers();
      KeptWithBlock(out, kept, BEGIN_MARKER, body, END_MARKER);
    } else {
      KeptWithoutBlock(out, kept);
    }
  }

  lemma KeptWithBlock(out: string, kept: seq<string>, b: string, body: seq<string>, e: string)
    requires Lines(out) == kept + [b] + body + [e]
    requires Plain(kept) && Plain(body) && IsBegin(b) && IsEnd(e) && TrimBlanks(kept) == kept
    ensures ScanAll(Lines(out)).Going? && !ScanAll(Lines(out)).inBlock && Kept(out) == kept
  {
    ScanBlock(kept, b, body, e, []);
    assert kept + [] == kept && kept + [b] + body + [e] + [] == Lines(out);
    hide Lines, ScanAll, Plain, IsBegin, IsEnd;
  }

  lemma KeptWithoutBlock(out: string, kept: seq<string>)
    requires Lines(out) == if kept == [] then [""] else kept
    requires Plain(kept) && TrimBlanks(kept) == kept
    ensures ScanAll(Lines(out)).Going? && !ScanAll(Lines(out)).inBlock && Kept(out) == kept
  {
    hide Lines, Plain;
    if kept == [] { ScanBlankLine(); } else { ScanOnlyPlain(kept); }
    hide ScanAll;
  }

  lemma ScanBlankLine()
    ensures ScanAll([""]) == Going([""], false, false) && TrimBlanks([""]) == []
  {
    assert [""][..0] == [] && TrimSpace("") == "";
    assert ScanAll([]) == Going([], false, false);
  }

  /** The bytes a list of lines takes. */
  function Size(lines: seq<string>): nat
  {
    if lines == [] then 0 else |lines[0]| + 1 + Size(lines[1..])
  }

  lemma {:induction false} RenderedSize(lines: seq<string>)
    ensures |Rendered(lines)| == Size(lines)
  {
    if lines != [] {
      RenderedSize(lines[1..]);
      RenderedMore(lines[0], lines[1..]);
      assert [lines[0]] + lines[1..] == lines;
    }
  }

  lemma {:induction false} SizeJoin(a: seq<string>, b: seq<string>)
    ensures Size(a + b) == Size(a) + Size(b)
  {
    if a == [] {
      assert a + b == b;
    } else {
      assert (a + b)[1..] == a[1..] + b;
      SizeJoin(a[1..], b);
    }
  }

  predicate NoReturns(lines: seq<string>)
  {
    forall l :: l in lines ==> !EndsInReturn(l)
  }

  lemma {:induction false} StripsShrink(lines: seq<string>)
    ensures Size(StripReturns(lines)) <= Size(lines)
    ensures Size(StripReturns(lines)) == Size(lines) <==> NoReturns(lines)
    ensures NoReturns(lines) ==> StripReturns(lines) == lines
  {
    if lines != [] {
      StripsShrink(lines[1..]);
      assert StripReturns(lines)[1..] == StripReturns(lines[1..]);
      assert lines == [lines[0]] + lines[1..];
      assert NoReturns(lines) <==> !EndsInReturn(lines[0]) && NoReturns(lines[1..]);
    }
  }

  /**
    Merging one set of hosts and then another is merging the second, exactly when no kept line ends in a
    carriage return.
   */
  lemma MergeOverwritesIff(current: string, hosts: Hosts, hosts': Hosts)
    requires Merged(current, hosts).Ok? && CleanHosts(hosts)
    ensures Merged(Merged(current, hosts).value, hosts') == Merged(current, hosts') <==> NoReturns(Kept(current))
  {
    var kept, out := Kept(current), Merged(current, hosts).value;
    OutputKeeps(current, hosts);
    assert Merged(current, hosts').Ok? && Merged(out, hosts').Ok? by {
      hide TrimBlanks, Block, Rendered, Lines, ScanAll;
    }
    MergedIs(current, hosts');
    MergedIs(out, hosts');
    hide Merged, Kept, Block, CleanHosts, ScanAll;
    var block := Block(hosts');
    StripsShrink(kept);
    RenderedSize(kept + block);
    RenderedSize(StripReturns(kept) + block);
    SizeJoin(kept, block);
    SizeJoin(StripReturns(kept), block);
    hide StripReturns, NoReturns, Rendered, Size;
  }

  lemma {:induction false} UnixOneLine(line: string)
    requires OneLine(line)
    ensures Unix(line) == line
  {
    if line != [] {
      UnixOneLine(line[1..]);
      assert line == [line[0]] + line[1..];
    }
  }

  lemma LoneLine(line: string, hosts: Hosts)
    requires OneLine(line) && !IsMarker(line) && !Blank(line)
    ensures Kept(line) == [line] && Merged(line, hosts).Ok?
  {
    UnixOneLine(line);
    SplitLast(line);
    assert Lines(line) == [line];
    ScanOnlyPlain([line]);
    hide Unix, Split, ScanAll, Lines, Block, Rendered, IsMarker;
  }

  /** A last line that ends in a carriage return and has no line feed loses it in a second merge. */
  lemma ReturnIsLost(line: string)
    requires OneLine(line) && !IsMarker(line) && !Blank(line) && EndsInReturn(line)
    ensures Merged(line, map[]).Ok? && Merged(Merged(line, map[]).value, map[]) != Merged(line, map[])
  {
    LoneLine(line, map[]);
    MergeOverwritesIff(line, map[], map[]);
    assert line in Kept(line);
    hide Merged, Kept;
  }

  /** A file without carriage returns has no kept line that ends in one. */
  lemma NoReturnsInFile(current: string)
    requires '\r' !in current
    ensures NoReturns(Kept(current))
  {
    ScanKeeps(Lines(current));
    hide ScanAll, Lines, Plain;
    forall l | l in Kept(current) ensures !EndsInReturn(l) {
      LineChars(current, l);
      assert EndsInReturn(l) ==> '\r' in l;
    }
  }

  lemma LineChars(current: string, l: string)
    requires '\r' !in current && l in Lines(current)
    ensures forall c :: c in l ==> c in current
  {
    UnixSame(current);
    SplitChars(WithoutFinalNewline(current), l);
  }

  lemma {:induction false} UnixSame(s: string)
    requires '\r' !in s
    ensures Unix(s) == s
  {
    if s != [] {
      UnixSame(s[1..]);
      assert s == [s[0]] + s[1..];
    }
  }

  lemma {:induction false} SplitChars(s: string, l: string)
    requires l in Split(s)
    ensures forall c :: c in l ==> c in s
  {
    if s != [] {
      var rest := Split(s[1..]);
      assert s == [s[0]] + s[1..];
      if s[0] == '\n' {
        if l != "" { SplitChars(s[1..], l); }
      } else if l in rest[1..] {
        SplitChars(s[1..], l);
      } else {
        SplitChars(s[1..], rest[0]);
      }
    }
  }

  /** From one line on to its end, a file is a block with the given lines. */
  predicate HoldsBlock(lines: seq<string>, b: int, body: seq<string>)
  {
    && BlockAt(lines, b, |lines| - 1) && lines[b + 1..|lines| - 1] == body
    && lines[b] == "# BEGIN cloudflare-mesh-operator" && lines[|lines| - 1] == "# END cloudflare-mesh-operator"
  }

  /** The block of the output reads back as the lines of exactly the desired hosts, in the order of their names. */
  lemma BlockReadsBack(current: string, hosts: Hosts)
    requires Merged(current, hosts).Ok? && CleanHosts(hosts) && hosts.Keys != {}
    requires forall n :: n in hosts ==> !EndsInReturn(n)
    ensures HoldsBlock(Lines(Merged(current, hosts).value), |Kept(current)|, BlockBody(hosts))
    ensures Ascending(Sorted(hosts.Keys)) && forall n :: n in Sorted(hosts.Keys) <==> n in hosts
  {
    var kept, body := StripReturns(Kept(current)), BlockBody(hosts);
    SortedSorts(hosts.Keys);
    assert StripReturns(body) == body by { BodyHasNoReturns(hosts); StripsShrink(body); }
    OutputLines(current, hosts);
    hide Merged, Lines, BlockBody, IsBegin, IsEnd, StripReturns, Plain, Ascending, Sorted, CleanHosts;
    MarkersAreMarkers();
    BlockAround(kept, body);
  }

  lemma BlockAround(kept: seq<string>, body: seq<string>)
    requires Plain(kept) && Plain(body) && IsBegin(BEGIN_MARKER) && IsEnd(END_MARKER)
    ensures HoldsBlock(kept + [BEGIN_MARKER] + body + [END_MARKER], |kept|, body)
  {
    hide IsBegin, IsEnd;
    var b, e := BEGIN_MARKER, END_MARKER;
    var lines := kept + [b] + body + [e];
    assert lines[..|kept|] == kept && lines[|kept|] == b && lines[|kept| + 1..|lines| - 1] == body;
    assert lines[|lines| - 1] == e && lines[|lines|..] == [];
  }

  lemma BodyHasNoReturns(hosts: Hosts)
    requires forall n :: n in hosts ==> !EndsInReturn(n)
    ensures NoReturns(BlockBody(hosts))
  {
    SortedSorts(hosts.Keys);
    hide Sorted;
    var names := Sorted(hosts.Keys);
    forall l | l in BlockBody(hosts) ensures !EndsInReturn(l) {
      var i :| 0 <= i < |names| && BlockBody(hosts)[i] == l;
      assert names[i] in names && l == hosts[names[i]] + " " + names[i];
      assert names[i] != "" ==> l[|l| - 1] == names[i][|names[i]| - 1];
    }
  }

  /** A line cut at its first space. */
  function Cut(line: string): (string, string)
  {
    if line == [] then ("", "")
    else if line[0] == ' ' then ("", line[1..])
    else var (front, rest) := Cut(line[1..]); ([line[0]] + front, rest)
  }

  lemma {:induction false} CutAt(front: string, rest: string)
    requires ' ' !in front
    ensures Cut(front + " " + rest) == (front, rest)
  {
    var line := front + " " + rest;
    if front == [] {
      assert line == " " + rest && line[1..] == rest;
    } else {
      assert line[1..] == front[1..] + " " + rest;
      CutAt(front[1..], rest);
      assert [front[0]] + front[1..] == front;
    }
  }

  /** Each line of the block gives back the address and the name of its host. */
  lemma BlockGivesHosts(hosts: Hosts, i: nat)
    requires i < |Sorted(hosts.Keys)| && forall n :: n in hosts ==> ' ' !in hosts[n]
    ensures var name := Sorted(hosts.Keys)[i];
      i < |BlockBody(hosts)| && name in hosts && Cut(BlockBody(hosts)[i]) == (hosts[name], name)
  {
    SortedSorts(hosts.Keys);
    hide Sorted, Cut;
    var name := Sorted(hosts.Keys)[i];
    assert name in Sorted(hosts.Keys);
    CutAt(hosts[name], name);
  }

  /** The order of names: at the first place where they differ the smaller character, or the end, comes first. */
  lemma {:induction false} LexLessMeans(a: string, b: string)
    ensures LexLess(a, b) <==> exists n :: DiffersAt(a, b, n)
  {
    if a != [] && b != [] && a[0] == b[0] {
      LexLessMeans(a[1..], b[1..]);
      if n :| DiffersAt(a[1..], b[1..], n) {
        assert a == [a[0]] + a[1..] && b == [b[0]] + b[1..];
        assert DiffersAt(a, b, n + 1);
      }
      if n :| DiffersAt(a, b, n) {
        assert n > 0 && a[1..][..n - 1] == a[..n][1..] && b[1..][..n - 1] == b[..n][1..];
        assert DiffersAt(a[1..], b[1..], n - 1);
      }
    } else if b != [] && (a == [] || a[0] < b[0]) {
      assert DiffersAt(a, b, 0);
    }
  }

  predicate DiffersAt(a: string, b: string, n: int)
  {
    && 0 <= n <= |a| && n < |b| && a[..n] == b[..n]
    && (n == |a| || a[n] < b[n])
  }
}
