/** The managed block in /etc/hosts: what one rewrite makes of a file, and what removal gives back. */
module Hosts {
  import opened Text

  const HOSTS_BEGIN: string := "# ts-multinet begin"
  const HOSTS_END: string := "# ts-multinet end"

  datatype HostsEntry = HostsEntry(
    ip: string,
    alias: string,
    fqdn: string,
    tailnet: string,
    native: bool,
    domain: string,
    forceDomain: bool)

  datatype File = Missing | Content(text: string)

  // unicode.IsSpace.
  predicate IsSpace(c: char) {
    || '\t' <= c <= '\r' || c == ' ' || c == '\U{85}' || c == '\U{A0}' || c == '\U{1680}'
    || '\U{2000}' <= c <= '\U{200A}' || c == '\U{2028}' || c == '\U{2029}' || c == '\U{202F}'
    || c == '\U{205F}' || c == '\U{3000}'
  }

  function TrimSpace(s: string): string {
    if s != "" && IsSpace(s[0]) then TrimSpace(s[1..])
    else if s != "" && IsSpace(s[|s| - 1]) then TrimSpace(s[..|s| - 1])
    else s
  }

  predicate Blank(line: string) { TrimSpace(line) == "" }
  predicate IsBegin(line: string) { TrimSpace(line) == HOSTS_BEGIN }
  predicate IsEnd(line: string) { TrimSpace(line) == HOSTS_END }

  // The names an entry's line maps to its address: the alias, and the full name when the tailnet asks for it.
  function WrittenNames(e: HostsEntry): (names: seq<string>)
    ensures |names| > 0
  {
    [e.alias] + if e.native && e.fqdn != "" && e.fqdn != e.alias then [e.fqdn] else []
  }

  function HostsLine(e: HostsEntry): string {
    e.ip + " " + Join(WrittenNames(e), ' ') + "  # ts-multinet (" + e.tailnet + ")"
  }

  function HostsLines(es: seq<HostsEntry>): seq<string> {
    seq(|es|, i requires 0 <= i < |es| => HostsLine(es[i]))
  }

  function BlockOf(es: seq<HostsEntry>): seq<string> {
    [HOSTS_BEGIN] + HostsLines(es) + [HOSTS_END]
  }

  // The last line with the property, or -1.
  function LastWhere(lines: seq<string>, p: string -> bool): (i: int)
    ensures -1 <= i < |lines|
    ensures i >= 0 ==> p(lines[i])
    ensures forall j :: i < j < |lines| ==> !p(lines[j])
  {
    if lines == [] then -1
    else if p(lines[|lines| - 1]) then |lines| - 1
    else LastWhere(lines[..|lines| - 1], p)
  }

  // hostsBlockSpan: the last begin and end markers, when they are in that order.
  function Span(lines: seq<string>): (r: Option<(nat, nat)>)
    ensures r.Some? ==> r.value.0 <= r.value.1 < |lines|
  {
    var b, e := LastWhere(lines, IsBegin), LastWhere(lines, IsEnd);
    if b < 0 || e < b then None else Some((b, e))
  }

  // Drops the blank lines at the end.
  function Strip(lines: seq<string>): (r: seq<string>)
    ensures r <= lines
    ensures r != [] ==> !Blank(r[|r| - 1])
    ensures forall i :: |r| <= i < |lines| ==> Blank(lines[i])
  {
    if lines != [] && Blank(lines[|lines| - 1]) then Strip(lines[..|lines| - 1]) else lines
  }

  // What reaches the file: exactly one trailing newline.
  function Normalised(lines: seq<string>): seq<string> {
    Strip(lines) + [""]
  }

  function LinesOf(f: File): seq<string> {
    match f
    case Missing => []
    case Content(text) => Split(text, '\n')
  }

  function FileOf(lines: seq<string>): File
    requires |lines| > 0
  {
    Content(Join(lines, '\n'))
  }

  function WriteLines(lines: seq<string>, es: seq<HostsEntry>): seq<string> {
    match Span(lines)
    case Some((b, e)) => Normalised(lines[..b] + BlockOf(es) + lines[e + 1..])
    case None => Normalised(Strip(lines) + [""] + BlockOf(es))
  }

  function WriteOf(f: File, es: seq<HostsEntry>): File {
    FileOf(WriteLines(LinesOf(f), es))
  }

  // Where the cut of a removal starts: the separator line goes too when the block ends the file.
  function CutStart(lines: seq<string>, b: nat, e: nat): nat
    requires b <= e < |lines|
  {
    if Strip(lines[e + 1..]) == [] && b > 0 && Blank(lines[b - 1]) then b - 1 else b
  }

  function RemoveLines(lines: seq<string>): Option<seq<string>> {
    match Span(lines)
    case None => None
    case Some((b, e)) => Some(Normalised(lines[..CutStart(lines, b, e)] + lines[e + 1..]))
  }

  function RemoveOf(f: File): File {
    match f
    case Missing => Missing
    case Content(text) =>
      match RemoveLines(LinesOf(f))
      case None => f
      case Some(lines) => FileOf(lines)
  }

  // ---- the file rewriting code ----

  class HostsFile {
    var file: File
    var writes: nat   // rewrites that reached the disk

    constructor (f: File)
      ensures file == f && writes == 0
    {
      file, writes := f, 0;
    }

    static method BlockSpan(lines: seq<string>) returns (begin: int, end: int)
      ensures Span(lines).Some? ==> (begin, end) == Span(lines).value
      ensures Span(lines).None? ==> begin == -1 && end == -1
    {
      begin, end := -1, -1;
      for i := 0 to |lines|
        invariant begin == LastWhere(lines[..i], IsBegin) && end == LastWhere(lines[..i], IsEnd)
      {
        assert lines[..i + 1][..i] == lines[..i];
        MarkersDiffer(lines[i]);
        if IsBegin(lines[i]) {
          begin := i;
        } else if IsEnd(lines[i]) {
          end := i;
        }
      }
      assert lines[..|lines|] == lines;
      if begin < 0 || end < begin {
        begin, end := -1, -1;
      }
    }

    static method TrimBlank(lines: seq<string>) returns (out: seq<string>)
      ensures out == Strip(lines)
    {
      out := lines;
      while |out| > 0 && Blank(out[|out| - 1])
        invariant Strip(out) == Strip(lines)
      {
        out := out[..|out| - 1];
      }
    }

    // writeHostsLines: an unchanged result is not written.
    method WriteHostsLines(lines: seq<string>)
      modifies this
      ensures file == FileOf(Normalised(lines))
      ensures writes == old(writes) + (if file == old(file) then 0 else 1)
    {
      var out := TrimBlank(lines);
      out := out + [""];
      if file == FileOf(out) {
        return;
      }
      file := FileOf(out);
      writes := writes + 1;
    }

    static method RenderBlock(es: seq<HostsEntry>) returns (block: seq<string>)
      ensures block == BlockOf(es)
    {
      hide HostsLine;
      block := [HOSTS_BEGIN];
      for i := 0 to |es|
        invariant block == [HOSTS_BEGIN] + HostsLines(es[..i])
      {
        block := block + [HostsLine(es[i])];
        assert HostsLines(es[..i + 1]) == HostsLines(es[..i]) + [HostsLine(es[i])];
      }
      assert es[..|es|] == es;
      block := block + [HOSTS_END];
    }

    method WriteBlock(es: seq<HostsEntry>)
      modifies this
      ensures file == WriteOf(old(file), es)
      ensures writes == old(writes) + (if file == old(file) then 0 else 1)
    {
      hide Span, Strip, HostsLine, Split, Join, BlockOf;
      var lines := if file.Missing? then [] else Split(file.text, '\n');
      var block := RenderBlock(es);
      var begin, end := BlockSpan(lines);
      if begin >= 0 {
        WriteHostsLines(lines[..begin] + block + lines[end + 1..]);
      } else {
        var out := TrimBlank(lines);
        WriteHostsLines(out + [""] + block);
      }
    }

    method RemoveBlock()
      modifies this
      ensures file == RemoveOf(old(file))
      ensures writes == old(writes) + (if file == old(file) then 0 else 1)
    {
      hide Span, Strip, Blank, Split, Join;
      if file.Missing? {
        return;
      }
      var lines := Split(file.text, '\n');
      var begin, end := BlockSpan(lines);
      if begin < 0 {
        return;
      }
      var atEOF := true;
      var i := end + 1;
      while i < |lines| && atEOF
        invariant end + 1 <= i <= |lines|
        invariant atEOF <==> forall j :: end + 1 <= j < i ==> Blank(lines[j])
      {
        if !Blank(lines[i]) {
          atEOF := false;
        }
        i := i + 1;
      }
      AllBlankIff(lines[end + 1..]);
      assert forall j :: end + 1 <= j < |lines| ==> lines[j] == lines[end + 1..][j - end - 1];
      var cut := begin;
      if atEOF && cut > 0 && Blank(lines[cut - 1]) {
        cut := cut - 1;
      }
      WriteHostsLines(lines[..cut] + lines[end + 1..]);
    }
  }

  lemma MarkersDiffer(line: string)
    ensures !(IsBegin(line) && IsEnd(line))
  {
  }

  lemma AllBlankIff(lines: seq<string>)
    ensures Strip(lines) == [] <==> forall i :: 0 <= i < |lines| ==> Blank(lines[i])
  {
  }

  // ---- rendered lines ----

  // A rendered entry starts with its address, so it is neither blank nor a marker, and has no line break.
  predicate Renders(e: HostsEntry) {
    && e.ip != "" && '0' <= e.ip[0] <= '9'
    && '\n' !in e.ip && '\n' !in e.alias && '\n' !in e.fqdn && '\n' !in e.tailnet
  }

  ghost predicate AllRender(es: seq<HostsEntry>) {
    forall i :: 0 <= i < |es| ==> Renders(es[i])
  }

  lemma {:induction false} TrimKeepsFirst(s: string)
    requires s != "" && !IsSpace(s[0])
    ensures TrimSpace(s) != "" && TrimSpace(s)[0] == s[0]
    decreases |s|
  {
    if IsSpace(s[|s| - 1]) {
      TrimKeepsFirst(s[..|s| - 1]);
    }
  }

  lemma RenderedLine(e: HostsEntry)
    requires Renders(e)
    ensures '\n' !in HostsLine(e)
    ensures !Blank(HostsLine(e)) && !IsBegin(HostsLine(e)) && !IsEnd(HostsLine(e))
  {
    var names := WrittenNames(e);
    assert |names| == 2 ==> names[1..] == [e.fqdn];
    assert Join(names, ' ') == if |names| == 1 then e.alias else e.alias + [' '] + e.fqdn;
    assert HostsLine(e)[0] == e.ip[0];
    TrimKeepsFirst(HostsLine(e));
  }

  lemma MarkersAreMarkers()
    ensures IsBegin(HOSTS_BEGIN) && IsEnd(HOSTS_END) && !Blank(HOSTS_BEGIN) && !Blank(HOSTS_END) && Blank("")
    ensures '\n' !in HOSTS_BEGIN && '\n' !in HOSTS_END
  {
  }

  // ---- the lines of the written file ----

  lemma LastIs(lines: seq<string>, p: string -> bool, i: int)
    requires -1 <= i < |lines| && (i >= 0 ==> p(lines[i]))
    requires forall j :: i < j < |lines| ==> !p(lines[j])
    ensures LastWhere(lines, p) == i
  {
    var k := LastWhere(lines, p);
    assert k >= 0 ==> p(lines[k]);
  }

  // A block followed by lines without markers is found where it stands.
  lemma SpanOfBlock(head: seq<string>, es: seq<HostsEntry>, tail: seq<string>)
    requires AllRender(es)
    requires forall i :: 0 <= i < |tail| ==> !IsBegin(tail[i]) && !IsEnd(tail[i])
    ensures Span(head + BlockOf(es) + tail) == Some((|head|, |head| + |es| + 1))
  {
    hide IsBegin, IsEnd, HostsLine, Renders;
    MarkersAreMarkers();
    var lines := head + BlockOf(es) + tail;
    forall i | 0 <= i < |es| ensures !IsBegin(HostsLine(es[i])) && !IsEnd(HostsLine(es[i])) { RenderedLine(es[i]); }
    assert lines[|head|] == HOSTS_BEGIN && lines[|head| + |es| + 1] == HOSTS_END;
    assert forall i :: |head| < i <= |head| + |es| ==> lines[i] == HostsLine(es[i - |head| - 1]);
    assert forall i :: |head| + |es| + 1 < i < |lines| ==> lines[i] == tail[i - |head| - |es| - 2];
    MarkersDiffer(HOSTS_END);
    LastIs(lines, IsBegin, |head|);
    LastIs(lines, IsEnd, |head| + |es| + 1);
  }

  lemma StripBehind(head: seq<string>, tail: seq<string>)
    requires head != [] && !Blank(head[|head| - 1])
    ensures Strip(head + tail) == head + Strip(tail)
  {
    if tail != [] && Blank(tail[|tail| - 1]) {
      assert (head + tail)[..|head + tail| - 1] == head + tail[..|tail| - 1];
      StripBehind(head, tail[..|tail| - 1]);
    } else {
      assert (head + tail)[|head + tail| - 1] == if tail == [] then head[|head| - 1] else tail[|tail| - 1];
    }
  }

  // What a rewrite leaves: the text before the block, the block, and the stripped text after it. Stray
  // markers before the block stay where they are.
  function Before(lines: seq<string>): seq<string> {
    match Span(lines) case Some((b, _)) => lines[..b] case None => Strip(lines) + [""]
  }

  function After(lines: seq<string>): seq<string> {
    match Span(lines) case Some((_, e)) => lines[e + 1..] case None => []
  }

  lemma WrittenLines(lines: seq<string>, es: seq<HostsEntry>)
    ensures WriteLines(lines, es) == Before(lines) + BlockOf(es) + Strip(After(lines)) + [""]
  {
    hide Blank;
    MarkersAreMarkers();
    var head := Before(lines) + BlockOf(es);
    assert head[|head| - 1] == HOSTS_END;
    StripBehind(head, After(lines));
    assert head + [] == head;
  }

  lemma AfterHasNoMarkers(lines: seq<string>)
    ensures forall i :: 0 <= i < |After(lines)| ==> !IsBegin(After(lines)[i]) && !IsEnd(After(lines)[i])
  {
    hide IsBegin, IsEnd;
    if Span(lines).Some? {
      var (b, e) := Span(lines).value;
      assert forall i :: 0 <= i < |After(lines)| ==> After(lines)[i] == lines[e + 1 + i];
    }
  }

  lemma StripFixes(lines: seq<string>)
    ensures Strip(Strip(lines)) == Strip(lines) && Strip(Strip(lines) + [""]) == Strip(lines)
  {
    MarkersAreMarkers();
    assert (Strip(lines) + [""])[..|Strip(lines)|] == Strip(lines);
  }

  // The block just written is the block found next, with the same text around it.
  lemma WrittenSpan(lines: seq<string>, es: seq<HostsEntry>)
    requires AllRender(es)
    ensures var w := WriteLines(lines, es);
      && Span(w) == Some((|Before(lines)|, |Before(lines)| + |es| + 1))
      && Before(w) == Before(lines) && After(w) == Strip(After(lines)) + [""]
  {
    hide IsBegin, IsEnd, Strip, Before, After, WriteLines, HostsLine, Span, Renders;
    WrittenLines(lines, es);
    AfterHasNoMarkers(lines);
    StripIsPrefix(After(lines));
    EmptyIsNoMarker();
    var head, tail := Before(lines), Strip(After(lines)) + [""];
    var w := WriteLines(lines, es);
    assert w == head + BlockOf(es) + tail;
    SpanOfBlock(head, es, tail);
    SplitAtSpan(w, head, BlockOf(es), tail);
  }

  lemma StripIsPrefix(lines: seq<string>)
    ensures Strip(lines) <= lines
  {
  }

  lemma EmptyIsNoMarker()
    ensures !IsBegin("") && !IsEnd("")
  {
  }

  lemma SplitAtSpan(w: seq<string>, head: seq<string>, block: seq<string>, tail: seq<string>)
    requires w == head + block + tail && |block| >= 2 && Span(w) == Some((|head|, |head| + |block| - 1))
    ensures Before(w) == head && After(w) == tail
  {
  }

  // ---- files ----

  ghost predicate NoBreaks(lines: seq<string>) {
    forall l :: l in lines ==> '\n' !in l
  }

  lemma LinesOfFile(lines: seq<string>)
    requires |lines| > 0 && NoBreaks(lines)
    ensures LinesOf(FileOf(lines)) == lines
  {
    SplitOfJoin(lines, '\n');
  }

  lemma LinesHaveNoBreaks(f: File)
    ensures NoBreaks(LinesOf(f))
  {
  }

  lemma BlockHasNoBreaks(es: seq<HostsEntry>)
    requires AllRender(es)
    ensures NoBreaks(BlockOf(es))
  {
    hide HostsLine, Renders;
    MarkersAreMarkers();
    forall i | 0 <= i < |es| ensures '\n' !in HostsLine(es[i]) { RenderedLine(es[i]); }
  }

  lemma WrittenFile(f: File, es: seq<HostsEntry>)
    requires AllRender(es)
    ensures LinesOf(WriteOf(f, es)) == WriteLines(LinesOf(f), es)
  {
    hide Strip, LinesOf, Before, After, WriteLines, BlockOf;
    var lines := LinesOf(f);
    LinesHaveNoBreaks(f);
    BlockHasNoBreaks(es);
    WrittenLines(lines, es);
    StripIsPrefix(After(lines));
    PartsOfLines(lines);
    LinesOfFile(WriteLines(lines, es));
  }

  lemma PartsOfLines(lines: seq<string>)
    ensures forall l :: l in Before(lines) ==> l == "" || l in lines
    ensures forall l :: l in After(lines) ==> l in lines
  {
    StripIsPrefix(lines);
  }

  // A second rewrite forgets the first: only the last entries count.
  lemma WriteAbsorbsWrite(f: File, es: seq<HostsEntry>, es': seq<HostsEntry>)
    requires AllRender(es)
    ensures WriteOf(WriteOf(f, es), es') == WriteOf(f, es')
  {
    hide WriteLines, Before, After, Strip;
    WrittenFile(f, es);
    var lines := LinesOf(f);
    var w := WriteLines(lines, es);
    WrittenSpan(lines, es);
    WrittenLines(lines, es');
    WrittenLines(w, es');
    StripFixes(After(lines));
  }

  // The file tells how many entries were written.
  lemma WriteTells(f: File, es: seq<HostsEntry>, es': seq<HostsEntry>)
    requires AllRender(es) && AllRender(es') && WriteOf(f, es) == WriteOf(f, es')
    ensures |es| == |es'|
  {
    hide WriteLines, Before, After, Strip, Span, WriteOf, AllRender;
    WrittenFile(f, es);
    WrittenFile(f, es');
    WrittenSpan(LinesOf(f), es);
    WrittenSpan(LinesOf(f), es');
  }

  // What removal makes of a file that holds a block between head and tail.
  lemma RemovedLines(w: seq<string>, head: seq<string>, tail: seq<string>)
    requires Span(w).Some? && Before(w) == head && After(w) == tail
    ensures var kept :=
              if Strip(tail) == [] && head != [] && Blank(head[|head| - 1]) then head[..|head| - 1] else head;
      RemoveLines(w) == Some(Normalised(kept + tail))
  {
    hide Strip, Blank;
    var (b, e) := Span(w).value;
    assert |head| == b && (b > 0 ==> head[b - 1] == w[b - 1]);
    assert b > 0 ==> w[..b - 1] == head[..b - 1];
  }

  // Removing a block just written gives what removing the old block gives, or the normalised file when
  // there was none.
  lemma RemoveUndoesWrite(f: File, es: seq<HostsEntry>)
    requires AllRender(es)
    ensures Span(LinesOf(f)).Some? ==> RemoveOf(WriteOf(f, es)) == RemoveOf(f)
    ensures Span(LinesOf(f)).None? ==> RemoveOf(WriteOf(f, es)) == FileOf(Normalised(LinesOf(f)))
  {
    hide Strip, WriteLines, Blank, Before, After, Span, RemoveLines, LinesOf;
    var lines := LinesOf(f);
    var w, head, tail := WriteLines(lines, es), Before(lines), After(lines);
    WrittenFile(f, es);
    WrittenSpan(lines, es);
    StripFixes(tail);
    RemovedLines(w, head, Strip(tail) + [""]);
    if Span(lines).Some? {
      MissingHasNoLines(f);
      RemovedLines(lines, head, tail);
      StripTail(head, tail);
      if head != [] { StripTail(head[..|head| - 1], tail); }
    } else {
      RemovedFresh(lines);
    }
  }

  lemma MissingHasNoLines(f: File)
    ensures f.Missing? ==> LinesOf(f) == [] && Span([]).None?
  {
  }

  lemma RemovedFresh(lines: seq<string>)
    requires Span(lines).None?
    ensures Before(lines) == Strip(lines) + [""] && After(lines) == []
    ensures Strip([]) == [] && Blank("")
    ensures Normalised(Strip(lines) + (Strip([]) + [""])) == Normalised(lines)
  {
    StripFixes(lines);
    assert Strip(lines) + ([] + [""]) == Strip(lines) + [""];
  }

  // Stripping first the tail alone makes no difference to the whole.
  lemma StripTail(head: seq<string>, tail: seq<string>)
    ensures Strip(head + (Strip(tail) + [""])) == Strip(head + tail)
  {
    hide Blank;
    MarkersAreMarkers();
    StripBlank(head + Strip(tail));
    assert head + (Strip(tail) + [""]) == (head + Strip(tail)) + [""];
    StripBack(head, tail);
  }

  lemma StripBlank(lines: seq<string>)
    ensures Strip(lines + [""]) == Strip(lines)
  {
    MarkersAreMarkers();
    assert (lines + [""])[..|lines|] == lines;
  }

  lemma StripBack(head: seq<string>, tail: seq<string>)
    ensures Strip(head + Strip(tail)) == Strip(head + tail)
  {
    hide Blank;
    if tail != [] && Blank(tail[|tail| - 1]) {
      assert (head + tail)[..|head + tail| - 1] == head + tail[..|tail| - 1];
      StripBack(head, tail[..|tail| - 1]);
    }
  }

  // The text outside the block survives a rewrite, in order, up to blank lines at the end.
  lemma OutsideSurvives(f: File, es: seq<HostsEntry>)
    requires AllRender(es)
    ensures var lines, w := LinesOf(f), LinesOf(WriteOf(f, es));
      && Span(w).Some?
      && Before(w) == Before(lines) && Strip(After(w)) == Strip(After(lines))
      && w[Span(w).value.0..Span(w).value.1 + 1] == BlockOf(es)
  {
    hide Strip, Span, WriteLines, Before, After;
    WrittenFile(f, es);
    WrittenSpan(LinesOf(f), es);
    WrittenLines(LinesOf(f), es);
    StripFixes(After(LinesOf(f)));
  }
}
