/** What a line of a Telegram document is, character by character. */
module TelegramKinds {
  import opened Text
  import opened TelegramBlocks

  /** The text begins with three of the character. */
  predicate Triple(t: string, c: char) { |t| >= 3 && t[0] == c && t[1] == c && t[2] == c }

  /** The text begins with `n` hashes and a space. */
  predicate Hashes(t: string, n: nat) { n < |t| && t[n] == ' ' && forall i :: 0 <= i < n ==> t[i] == '#' }

  /** The text begins with `n` digits, a full stop or parenthesis, and a space. */
  predicate Numbered(t: string, n: nat) {
    n + 1 < |t| && t[n] in {'.', ')'} && t[n + 1] == ' ' && forall i :: 0 <= i < n ==> '0' <= t[i] <= '9'
  }

  lemma {:induction false} RunMeaning(t: string, test: char -> bool)
    ensures var n := LeadingRun(t, test);
            (forall i :: 0 <= i < n ==> test(t[i])) && (n < |t| ==> !test(t[n]))
  {
    if t != "" && test(t[0]) { RunMeaning(t[1..], test); }
  }

  lemma FenceIff(t: string)
    ensures FenceDelimiter(t) == if Triple(t, '`') then Some("```") else if Triple(t, '~') then Some("~~~") else None
  {
    TripleIff(t, '`');
    TripleIff(t, '~');
  }

  lemma TripleIff(t: string, c: char)
    ensures [c, c, c] <= t <==> Triple(t, c)
  {}

  lemma HeadingIff(t: string)
    ensures HeadingText(t).Some? <==> exists n :: 1 <= n <= 6 && Hashes(t, n)
  {
    RunMeaning(t, IsHash);
    var k := LeadingRun(t, IsHash);
    if n :| 1 <= n <= 6 && Hashes(t, n) { assert n == k; }
    if HeadingText(t).Some? { assert Hashes(t, k); }
  }

  lemma BulletIff(t: string)
    ensures UnorderedItem(t).Some? <==> |t| >= 2 && t[0] in {'-', '*', '+'} && t[1] == ' '
  {}

  lemma NumberIff(t: string)
    ensures OrderedItem(t).Some? <==> exists n :: 1 <= n && Numbered(t, n)
  {
    RunMeaning(t, IsDigit);
    var k := LeadingRun(t, IsDigit);
    var rest := t[k..];
    if n :| 1 <= n && Numbered(t, n) { assert n == k && rest[0] == t[k] && rest[1] == t[k + 1]; }
    if OrderedItem(t).Some? { assert rest[0] == t[k] && rest[1] == t[k + 1] && Numbered(t, k); }
  }

  /** The kinds of trimmed lines. Everything else is prose. */
  lemma KindIff(line: string)
    ensures var t, k := Trim(line), KindOf(line);
            && (k == Blank <==> t == "")
            && (k == Fence <==> Triple(t, '`') || Triple(t, '~'))
            && (k == Heading <==> exists n :: 1 <= n <= 6 && Hashes(t, n))
            && (k == Quote <==> t != "" && t[0] == '>')
            && (k == Bullet <==> |t| >= 2 && t[0] in {'-', '*', '+'} && t[1] == ' ')
            && (k == Number <==> exists n :: 1 <= n && Numbered(t, n))
  {
    var t := Trim(line);
    hide Trim, FenceDelimiter, HeadingText, UnorderedItem, OrderedItem;
    FenceIff(t);
    HeadingIff(t);
    BulletIff(t);
    NumberIff(t);
    if t != "" { TestsExclusive(line); }
  }

  /** A fenced block opens with three backticks or tildes; none of its lines, trimmed, begins with
      three of the same, and the line that closes it does. */
  ghost predicate Fenced(b: Block, c: char)
    requires b.CodeBlock?
  {
    && Triple(Trim(b.opener), c) && (forall i :: 0 <= i < |b.body| ==> !Triple(Trim(b.body[i]), c))
    && (b.closer.Some? ==> Triple(Trim(b.closer.value), c))
  }

  lemma {:induction false} FencesMeaning(lines: seq<string>)
    ensures forall b <- Parse(lines) :: b.CodeBlock? ==> Fenced(b, '`') || Fenced(b, '~')
    decreases |lines|
  {
    if lines != [] {
      hide FirstBlock, Fenced;
      FencesMeaning(lines[|SourceOf(FirstBlock(lines))|..]);
      FirstFence(lines);
    }
  }

  lemma FirstFence(lines: seq<string>)
    requires lines != []
    ensures var b := FirstBlock(lines); b.CodeBlock? ==> Fenced(b, '`') || Fenced(b, '~')
  {
    hide FencedBlock, Fenced, Trim;
    CodeIsFenced(lines);
    if KindOf(lines[0]) == Fence {
      KindIff(lines[0]);
      FenceIff(Trim(lines[0]));
      BlockIsFenced(lines, if Triple(Trim(lines[0]), '`') then '`' else '~');
    }
  }

  lemma CodeIsFenced(lines: seq<string>)
    requires lines != []
    ensures FirstBlock(lines).CodeBlock? ==>
              KindOf(lines[0]) == Fence && FirstBlock(lines) == FencedBlock(lines, NotClosing(FenceOf(lines[0])))
  {
    hide KindOf, FenceOf, FirstRun, FencedBlock;
    FirstRunFits(lines);
  }

  lemma BlockIsFenced(lines: seq<string>, c: char)
    requires lines != [] && Triple(Trim(lines[0]), c) && FenceDelimiter(Trim(lines[0])) == Some([c, c, c])
    ensures var b := FencedBlock(lines, NotClosing(FenceOf(lines[0]))); b.CodeBlock? && Fenced(b, c)
  {
    hide Trim, FenceDelimiter;
    var test := NotClosing(FenceOf(lines[0]));
    var body := TakeWhile(lines[1..], test);
    forall line ensures test(line) <==> !Triple(Trim(line), c) { TripleIff(Trim(line), c); }
    if |body| + 1 < |lines| { assert lines[1..][|body|] == lines[|body| + 1]; }
  }
}
