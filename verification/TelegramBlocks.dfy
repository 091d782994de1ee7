/** Markdown blocks to Telegram HTML: the line loop that groups lines into blocks. */
module TelegramBlocks {
  import opened Text
  import opened Escape
  import opened Inline

  // Lines

  function NormalizeNewlines(text: string): string {
    Replace(Replace(text, "\r\n", "\n"), "\r", "\n")
  }

  /** The lines of a text without carriage returns; a final newline opens no line. */
  function Lines(s: string): seq<string>
    decreases |s|
  {
    if s == "" then []
    else
      match Find(s, "\n", 0)
      case None => [s]
      case Some(k) => [s[..k]] + Lines(s[k + 1..])
  }

  // Line tests

  function FenceDelimiter(line: string): Option<string> {
    if "```" <= line then Some("```") else if "~~~" <= line then Some("~~~") else None
  }

  /** The length of the leading run of `c`. */
  function LeadingRun(line: string, test: char -> bool): (n: nat)
    ensures n <= |line|
  {
    if line != "" && test(line[0]) then 1 + LeadingRun(line[1..], test) else 0
  }

  predicate IsHash(c: char) { c == '#' }

  predicate IsDigit(c: char) { '0' <= c <= '9' }

  function HeadingText(line: string): Option<string> {
    var hashes := LeadingRun(line, IsHash);
    if 1 <= hashes <= 6 && hashes < |line| && line[hashes] == ' ' then Some(line[hashes + 1..]) else None
  }

  function UnorderedItem(line: string): Option<string> {
    if "- " <= line || "* " <= line || "+ " <= line then Some(line[2..]) else None
  }

  function OrderedItem(line: string): Option<string> {
    var digits := LeadingRun(line, IsDigit);
    var rest := line[digits..];
    if digits == 0 then None
    else if ". " <= rest || ") " <= rest then Some(rest[2..])
    else None
  }

  /** What a line is, by the tests in the order the loop tries them. */
  datatype Kind = Blank | Fence | Heading | Quote | Bullet | Number | Prose

  function KindOf(line: string): Kind {
    var t := Trim(line);
    if t == "" then Blank
    else if FenceDelimiter(t).Some? then Fence
    else if HeadingText(t).Some? then Heading
    else if t[0] == '>' then Quote
    else if UnorderedItem(t).Some? then Bullet
    else if OrderedItem(t).Some? then Number
    else Prose
  }

  /** No line passes two tests, so it does not matter that the inner loops try only their own. */
  lemma TestsExclusive(line: string)
    requires Trim(line) != ""
    ensures var t, k := Trim(line), KindOf(line);
            && (FenceDelimiter(t).Some? <==> k == Fence)
            && (HeadingText(t).Some? <==> k == Heading)
            && (t[0] == '>' <==> k == Quote)
            && (UnorderedItem(t).Some? <==> k == Bullet)
            && (OrderedItem(t).Some? <==> k == Number)
  {
    var t := Trim(line);
    hide Trim, LeadingRun;
    RunHead(t);
  }

  lemma RunHead(t: string)
    requires t != ""
    ensures LeadingRun(t, IsHash) > 0 <==> t[0] == '#'
    ensures LeadingRun(t, IsDigit) > 0 <==> '0' <= t[0] <= '9'
  {}

  // Blocks, each with the lines it was read from

  datatype Block =
    | Gap(line: string)
    | CodeBlock(opener: string, body: seq<string>, closer: Option<string>)
    | HeadingBlock(line: string)
    | QuoteBlock(lines: seq<string>)
    | BulletBlock(lines: seq<string>, gap: Option<string>)
    | NumberBlock(lines: seq<string>, gap: Option<string>)
    | ProseBlock(lines: seq<string>)

  function Optional(line: Option<string>): seq<string> {
    if line.Some? then [line.value] else []
  }

  function SourceOf(b: Block): seq<string> {
    match b
    case Gap(line) => [line]
    case CodeBlock(opener, body, closer) => [opener] + body + Optional(closer)
    case HeadingBlock(line) => [line]
    case QuoteBlock(lines) => lines
    case BulletBlock(lines, gap) => lines + Optional(gap)
    case NumberBlock(lines, gap) => lines + Optional(gap)
    case ProseBlock(lines) => lines
  }

  /** The delimiter that opened a fenced block. */
  function FenceOf(opener: string): string {
    var d := FenceDelimiter(Trim(opener));
    if d.Some? then d.value else ""
  }

  function Is(kind: Kind): string -> bool { line => KindOf(line) == kind }

  function NotClosing(fence: string): string -> bool { line => !(fence <= Trim(line)) }

  function BlankAt(lines: seq<string>, i: nat): Option<string> {
    if i < |lines| && KindOf(lines[i]) == Blank then Some(lines[i]) else None
  }

  /** A fenced block runs to its closing line, or to the end of the text. */
  function FencedBlock(lines: seq<string>, test: string -> bool): (b: Block)
    requires lines != []
    ensures SourceOf(b) != [] && SourceOf(b) <= lines
  {
    var body := TakeWhile(lines[1..], test);
    assert body == lines[1..][..|body|];
    CodeBlock(lines[0], body, if |body| + 1 < |lines| then Some(lines[|body| + 1]) else None)
  }

  lemma WithGap(lines: seq<string>, n: nat)
    requires n <= |lines|
    ensures lines[..n] + Optional(BlankAt(lines, n)) <= lines
  {
    hide KindOf;
    if n < |lines| { assert lines[..n] + [lines[n]] == lines[..n + 1]; }
  }

  /** A block of consecutive lines of one kind; lists also swallow one blank line. */
  function RunBlock(kind: Kind, run: seq<string>, gap: Option<string>): (b: Block)
    ensures SourceOf(b) == run || SourceOf(b) == run + Optional(gap)
  {
    match kind
    case Quote => QuoteBlock(run)
    case Bullet => BulletBlock(run, gap)
    case Number => NumberBlock(run, gap)
    case _ => ProseBlock(run)
  }

  /** The run of lines of the first line's kind. */
  function FirstRun(lines: seq<string>): seq<string>
    requires lines != []
  {
    TakeWhile(lines, Is(KindOf(lines[0])))
  }

  lemma FirstRunFits(lines: seq<string>)
    requires lines != []
    ensures var run := FirstRun(lines);
            run != [] && run <= lines && run + Optional(BlankAt(lines, |run|)) <= lines
  {
    hide KindOf, BlankAt, Optional, Trim;
    var run := FirstRun(lines);
    WithGap(lines, |run|);
    assert run == lines[..|run|];
  }

  /** The block that starts at the first line. */
  function FirstBlock(lines: seq<string>): (b: Block)
    requires lines != []
    ensures SourceOf(b) != [] && SourceOf(b) <= lines
  {
    hide KindOf, FenceOf;
    var kind := KindOf(lines[0]);
    if kind == Blank then Gap(lines[0])
    else if kind == Heading then HeadingBlock(lines[0])
    else if kind == Fence then FencedBlock(lines, NotClosing(FenceOf(lines[0])))
    else FirstRunFits(lines); var run := FirstRun(lines); RunBlock(kind, run, BlankAt(lines, |run|))
  }

  function Parse(lines: seq<string>): seq<Block>
    decreases |lines|
  {
    if lines == [] then []
    else
      var b := FirstBlock(lines);
      [b] + Parse(lines[|SourceOf(b)|..])
  }

  // Rendering

  const Digits := "0123456789"

  function Decimal(n: nat): (s: string)
    ensures s != ""
  {
    if n < 10 then [Digits[n]] else Decimal(n / 10) + [Digits[n % 10]]
  }

  function QuoteItem(line: string): string {
    var t := Trim(line);
    InlineOf(TrimStart(if t != "" && t[0] == '>' then t[1..] else t))
  }

  function Content(item: Option<string>): string {
    if item.Some? then Trim(item.value) else ""
  }

  function BulletItem(line: string): string {
    "• " + InlineOf(Content(UnorderedItem(Trim(line))))
  }

  function NumberItem(line: string, n: nat): string {
    Decimal(n) + ". " + InlineOf(Content(OrderedItem(Trim(line))))
  }

  function QuoteItems(lines: seq<string>): seq<string> {
    seq(|lines|, i requires 0 <= i < |lines| => QuoteItem(lines[i]))
  }

  function BulletItems(lines: seq<string>): seq<string> {
    seq(|lines|, i requires 0 <= i < |lines| => BulletItem(lines[i]))
  }

  function NumberItems(lines: seq<string>): seq<string> {
    seq(|lines|, i requires 0 <= i < |lines| => NumberItem(lines[i], i + 1))
  }

  function TrimAll(lines: seq<string>): seq<string> {
    seq(|lines|, i requires 0 <= i < |lines| => Trim(lines[i]))
  }

  function HtmlOf(b: Block): string {
    match b
    case Gap(_) => ""
    case CodeBlock(_, body, _) => "<pre><code>" + EscapeHtml(Join(body, "\n")) + "</code></pre>"
    case HeadingBlock(line) => "<b>" + InlineOf(Content(HeadingText(Trim(line)))) + "</b>"
    case QuoteBlock(lines) => "<blockquote>" + Join(QuoteItems(lines), "\n") + "</blockquote>"
    case BulletBlock(lines, _) => Join(BulletItems(lines), "\n")
    case NumberBlock(lines, _) => Join(NumberItems(lines), "\n")
    case ProseBlock(lines) => InlineOf(Join(TrimAll(lines), "\n"))
  }

  function HtmlBlocks(bs: seq<Block>): seq<string> {
    if bs == [] then []
    else (if bs[0].Gap? then [] else [HtmlOf(bs[0])]) + HtmlBlocks(bs[1..])
  }

  /** The rendered blocks of a list of lines. */
  function Rendered(lines: seq<string>): seq<string> {
    HtmlBlocks(Parse(lines))
  }

  function TelegramOf(text: string): string {
    Join(Rendered(Lines(NormalizeNewlines(text))), "\n\n")
  }
}
