/** Stripping inline Markdown for enterprise plain-text replies: images, links, automatic
    links, then the delimiters. */
module StripInline {
  import opened Text
  import opened Emphasis
  import Links

  // Images

  datatype Image = Image(start: nat, mid: nat, end: nat)

  predicate IsImage(s: string, m: Image) {
    && m.start + 2 <= m.mid && m.mid + 2 <= m.end < |s|
    && StartsAt(s, m.start, "![") && StartsAt(s, m.mid, "](") && s[m.end] == ')'
  }

  function FirstImage(s: string): (r: Option<Image>)
    ensures r.Some? ==> IsImage(s, r.value)
  {
    match Find(s, "![", 0)
    case None => None
    case Some(start) =>
      match Find(s, "](", start)
      case None => None
      case Some(mid) =>
        match Find(s, ")", mid + 2)
        case None => None
        case Some(end) =>
          assert s[start] == "!["[0] && s[start + 1] == "!["[1] && s[mid] == "]("[0];
          Some(Image(start, mid, end))
  }

  lemma FirstImageFindsAny(s: string, m: Image)
    requires IsImage(s, m)
    ensures FirstImage(s).Some?
  {
    var start := Find(s, "![", 0).value;
    assert Find(s, "](", start).Some?;
    var mid := Find(s, "](", start).value;
    assert StartsAt(s, m.end, ")");
  }

  /** An image becomes its address, after its alternative text if it has one. */
  function ReplaceImage(s: string, m: Image): string
    requires IsImage(s, m)
  {
    var alt, url := s[m.start + 2..m.mid], s[m.mid + 2..m.end];
    s[..m.start] + (if alt == "" then url else alt + " (" + url + ")") + s[m.end + 1..]
  }

  lemma ReplaceImageDropsBracket(s: string, m: Image)
    requires IsImage(s, m)
    ensures Count(ReplaceImage(s, m), '[') < Count(s, '[')
  {
    var a, alt, url, z := s[..m.start], s[m.start + 2..m.mid], s[m.mid + 2..m.end], s[m.end + 1..];
    var repl := if alt == "" then url else alt + " (" + url + ")";
    ImagePieces(s, m);
    CountAlt(alt, url);
    CountImage(a, alt, url, z);
    hide Count;
    CountAppend(a + repl, z, '[');
    CountAppend(a, repl, '[');
  }

  lemma CountImage(a: string, alt: string, url: string, z: string)
    ensures Count(a + ("![" + alt) + ("](" + url) + ")" + z, '[')
         == Count(a, '[') + 1 + Count(alt, '[') + Count(url, '[') + Count(z, '[')
  {
    BracketCount();
    hide Count;
    CountFive(a, "![" + alt, "](" + url, ")", z, '[');
    CountAppend("![", alt, '[');
    CountAppend("](", url, '[');
  }

  lemma ImagePieces(s: string, m: Image)
    requires IsImage(s, m)
    ensures s == s[..m.start] + ("![" + s[m.start + 2..m.mid]) + ("](" + s[m.mid + 2..m.end]) + ")" + s[m.end + 1..]
  {
    assert s[m.start..m.mid] == s[m.start..m.start + 2] + s[m.start + 2..m.mid];
    assert s[m.mid..m.end] == s[m.mid..m.mid + 2] + s[m.mid + 2..m.end];
    assert s[m.end..m.end + 1] == ")";
    assert s == s[..m.start] + s[m.start..m.mid] + s[m.mid..m.end] + s[m.end..m.end + 1] + s[m.end + 1..];
  }

  lemma BracketCount()
    ensures Count("![", '[') == 1 && Count("](", '[') == 0 && Count(")", '[') == 0
  {}

  lemma CountAlt(alt: string, url: string)
    ensures Count(if alt == "" then url else alt + " (" + url + ")", '[') == Count(alt, '[') + Count(url, '[')
  {
    if alt != "" {
      CountAppend(alt + " (" + url, ")", '[');
      CountAppend(alt + " (", url, '[');
      CountAppend(alt, " (", '[');
    }
  }

  function Images(s: string): string
    decreases Count(s, '[')
  {
    match FirstImage(s)
    case None => s
    case Some(m) =>
      ReplaceImageDropsBracket(s, m);
      Images(ReplaceImage(s, m))
  }

  method StripImages(input: string) returns (text: string)
    ensures text == Images(input)
  {
    text := input;
    var image := FirstImage(text);
    while image.Some?
      invariant image == FirstImage(text) && Images(text) == Images(input)
      decreases Count(text, '[')
    {
      ReplaceImageDropsBracket(text, image.value);
      text := ReplaceImage(text, image.value);
      image := FirstImage(text);
    }
  }

  /** Nothing that reads as an image is left. */
  lemma {:induction false} ImagesGone(s: string)
    ensures forall m :: !IsImage(Images(s), m)
    decreases Count(s, '[')
  {
    match FirstImage(s)
    case None => forall m | IsImage(s, m) ensures false { FirstImageFindsAny(s, m); }
    case Some(m) =>
      ReplaceImageDropsBracket(s, m);
      ImagesGone(ReplaceImage(s, m));
  }

  /** The image that the loop takes next: none starts before it, its alternative text ends at the
      first chance, and so does its address. */
  predicate IsNextImage(before: string, alt: string, url: string) {
    Find(before + "!", "![", 0).None? && Find(alt + "]", "](", 0).None? && ')' !in url
  }

  function ImageText(before: string, alt: string, url: string, after: string): string {
    before + "![" + alt + "](" + url + ")" + after
  }

  /** One round of the loop keeps what is around the image, which becomes its address in
      parentheses after its alternative text, or its address if it has none. */
  lemma ImageRound(before: string, alt: string, url: string, after: string)
    requires IsNextImage(before, alt, url)
    ensures Images(before + "![" + alt + "](" + url + ")" + after)
         == Images(before + (if alt == "" then url else alt + " (" + url + ")") + after)
  {
    FirstImageIs(before, alt, url, after);
    ImageReplaced(before, alt, url, after);
    hide FirstImage, Count, ReplaceImage, IsImage;
    assert ImageText(before, alt, url, after) == before + "![" + alt + "](" + url + ")" + after;
  }

  lemma ImageReplaced(before: string, alt: string, url: string, after: string)
    ensures var s, mid := ImageText(before, alt, url, after), |before| + 2 + |alt|;
            var m := Image(|before|, mid, mid + 2 + |url|);
            IsImage(s, m)
            && ReplaceImage(s, m) == before + (if alt == "" then url else alt + " (" + url + ")") + after
  {
    ImageAt(before, alt, url, after);
    hide ImageText, StartsAt;
  }

  lemma FirstImageIs(before: string, alt: string, url: string, after: string)
    requires IsNextImage(before, alt, url)
    ensures var start, mid := |before|, |before| + 2 + |alt|;
            FirstImage(ImageText(before, alt, url, after)) == Some(Image(start, mid, mid + 2 + |url|))
  {
    hide ImageText, StartsAt;
    var s := ImageText(before, alt, url, after);
    var start := |before|;
    var mid := start + 2 + |alt|;
    var end := mid + 2 + |url|;
    ImageAt(before, alt, url, after);
    StartIsFirst(s, before);
    Links.MiddleIsFirst(s, alt, start + 2, mid);
    NoMiddle(s, start);
    Links.NotAt(s, mid + 2, end, ")");
    assert Find(s, "![", 0) == Some(start) && Find(s, "](", start) == Some(mid) && Find(s, ")", mid + 2) == Some(end);
  }

  lemma NoMiddle(s: string, start: nat)
    requires start + 2 <= |s| && s[start] == '!' && s[start + 1] == '['
    ensures !StartsAt(s, start, "](") && !StartsAt(s, start + 1, "](")
  {}

  lemma StartIsFirst(s: string, before: string)
    requires |before| + 2 <= |s| && s[..|before|] == before && s[|before|] == '!'
    requires Find(before + "!", "![", 0).None?
    ensures forall i :: 0 <= i < |before| ==> !StartsAt(s, i, "![")
  {
    var n := |before|;
    var t := s[0..n + 1];
    assert t == before + "!";
    forall i | 0 <= i < n ensures !StartsAt(s, i, "![") {
      assert !StartsAt(t, i, "![");
      Links.SamePlace(s, 0, n + 1, i);
    }
  }

  lemma ImageAt(before: string, alt: string, url: string, after: string)
    ensures var s, start := ImageText(before, alt, url, after), |before|;
            var mid := start + 2 + |alt|;
            var end := mid + 2 + |url|;
            && s[..start] == before && s[start] == '!' && s[start + 1] == '[' && s[start + 2..mid] == alt
            && s[mid..mid + 2] == "](" && s[mid + 2..end] == url && s[end] == ')' && s[end + 1..] == after
            && StartsAt(s, start, "![") && StartsAt(s, mid, "](") && StartsAt(s, end, ")")
  {}

  // Automatic links

  predicate IsAddress(inner: string) {
    "http://" <= inner || "https://" <= inner || "mailto:" <= inner
  }

  /** The first '<', when a '>' follows it and an address stands between them. */
  function FirstAutolink(s: string): (r: Option<(nat, nat)>)
    ensures r.Some? ==> r.value.0 < r.value.1 < |s| && s[r.value.0] == '<'
  {
    match Find(s, "<", 0)
    case None => None
    case Some(start) =>
      match Find(s, ">", start + 1)
      case None => None
      case Some(end) => if IsAddress(s[start + 1..end]) then Some((start, end)) else None
  }

  function Unwrap(s: string, l: (nat, nat)): string
    requires l.0 < l.1 < |s|
  {
    s[..l.0] + s[l.0 + 1..l.1] + s[l.1 + 1..]
  }

  lemma UnwrapDropsAngle(s: string, l: (nat, nat))
    requires l.0 < l.1 < |s| && s[l.0] == '<'
    ensures Count(Unwrap(s, l), '<') < Count(s, '<')
  {
    var a, inner, e, z := s[..l.0], s[l.0 + 1..l.1], [s[l.1]], s[l.1 + 1..];
    assert Count("<", '<') == 1;
    UnwrapPieces(s, l);
    hide Count;
    CountFive(a, "<", inner, e, z, '<');
    CountAppend(a + inner, z, '<');
    CountAppend(a, inner, '<');
  }

  lemma UnwrapPieces(s: string, l: (nat, nat))
    requires l.0 < l.1 < |s| && s[l.0] == '<'
    ensures s == s[..l.0] + "<" + s[l.0 + 1..l.1] + [s[l.1]] + s[l.1 + 1..]
  {}

  function Autolinks(s: string): string
    decreases Count(s, '<')
  {
    match FirstAutolink(s)
    case None => s
    case Some(l) =>
      UnwrapDropsAngle(s, l);
      Autolinks(Unwrap(s, l))
  }

  method StripAutolinks(input: string) returns (text: string)
    ensures text == Autolinks(input)
  {
    text := input;
    var found := FirstAutolink(text);
    while found.Some?
      invariant found == FirstAutolink(text) && Autolinks(text) == Autolinks(input)
      decreases Count(text, '<')
    {
      UnwrapDropsAngle(text, found.value);
      text := Unwrap(text, found.value);
      found := FirstAutolink(text);
    }
  }

  function AngleText(before: string, inner: string, after: string): string { before + "<" + inner + ">" + after }

  /** One round takes the angles off the first piece in angles, if an address begins there, and else
      the loop leaves the text as it is. */
  lemma AutolinkRound(before: string, inner: string, after: string)
    requires '<' !in before && '>' !in inner
    ensures Autolinks(before + "<" + inner + ">" + after)
         == if "http://" <= inner || "https://" <= inner || "mailto:" <= inner
            then Autolinks(before + inner + after)
            else before + "<" + inner + ">" + after
  {
    hide AngleText, StartsAt, FirstAutolink, Count;
    AngleAt(before, inner, after);
    FirstAngle(before, inner, after);
  }

  lemma FirstAngle(before: string, inner: string, after: string)
    requires '<' !in before && '>' !in inner
    ensures FirstAutolink(AngleText(before, inner, after))
         == if "http://" <= inner || "https://" <= inner || "mailto:" <= inner
            then Some((|before|, |before| + 1 + |inner|)) else None
  {
    hide AngleText, StartsAt;
    var s := AngleText(before, inner, after);
    var start, end := |before|, |before| + 1 + |inner|;
    AngleAt(before, inner, after);
    Links.NotAt(s, 0, start, "<");
    Links.NotAt(s, start + 1, end, ">");
    assert Find(s, "<", 0) == Some(start) && Find(s, ">", start + 1) == Some(end);
  }

  lemma AngleAt(before: string, inner: string, after: string)
    ensures var s, start, end := AngleText(before, inner, after), |before|, |before| + 1 + |inner|;
            && s == before + "<" + inner + ">" + after
            && s[..start] == before && s[start + 1..end] == inner && s[end + 1..] == after
            && StartsAt(s, start, "<") && StartsAt(s, end, ">")
  {}

  /** Without such a piece there is nothing to do. */
  lemma NoAngles(s: string)
    requires Find(s, "<", 0).None? || Find(s, ">", Find(s, "<", 0).value + 1).None?
    ensures Autolinks(s) == s
  {}

  // All passes

  /** The text after the images and links, before any delimiter is removed. */
  function Unlinked(text: string): string { Autolinks(Links.Rewrite(Images(text), Links.PlainParens)) }

  /** The delimiters that are removed after the double stars. */
  function Delete(s: string): string {
    Replace(Replace(Replace(s, "__", ""), "~~", ""), "`", "")
  }

  /** The text before the last pass, which drops isolated stars. */
  function BeforeStars(text: string): string { Delete(Replace(Unlinked(text), "**", "")) }

  function StripOf(text: string): string { DropFrom(BeforeStars(text), 0) }

  method StripInlineMarkdown(input: string) returns (out: string)
    ensures out == StripOf(input)
  {
    var text := StripImages(input);
    text := Links.RewriteLinks(text, Links.PlainParens);
    text := StripAutolinks(text);
    text := Replace(text, "**", "");
    text := Replace(text, "__", "");
    text := Replace(text, "~~", "");
    text := Replace(text, "`", "");
    out := DropIsolatedStars(text);
  }

  // When stars are left

  /** Removing a pattern works separately on both sides of a character the pattern lacks. */
  lemma {:induction false} ReplaceAround(a: string, c: char, b: string, p: string)
    requires p != "" && c !in p
    ensures Replace(a + [c] + b, p, "") == Replace(a, p, "") + [c] + Replace(b, p, "")
  {
    var s := a + [c] + b;
    if a == "" {
      assert s == [c] + b && s[1..] == b;
      assert p[0] != s[0];
    } else if p <= a {
      assert s[..|p|] == a[..|p|];
      assert s[|p|..] == a[|p|..] + [c] + b;
      ReplaceAround(a[|p|..], c, b, p);
    } else {
      if p <= s { PrefixIsEarlier(a, c, b, p); }
      assert s[1..] == a[1..] + [c] + b;
      ReplaceAround(a[1..], c, b, p);
    }
  }

  lemma PrefixIsEarlier(a: string, c: char, b: string, p: string)
    requires p != "" && c !in p && p <= a + [c] + b
    ensures p <= a
  {
    var s := a + [c] + b;
    var n := if |a| < |p| then |a| else 0;
    assert p[n] in p && p[n] == s[n] && s[|a|] == c;
    assert p == s[..|p|] == a[..|p|];
  }

  lemma {:induction false} ReplaceAdds(s: string, p: string, c: char)
    requires p != "" && c !in s
    ensures c !in Replace(s, p, "")
  {
    if s == "" {
    } else if p <= s {
      ReplaceAdds(s[|p|..], p, c);
    } else {
      ReplaceAdds(s[1..], p, c);
    }
  }

  lemma DeleteAround(a: string, b: string)
    ensures Delete(a + "*" + b) == Delete(a) + "*" + Delete(b)
  {
    hide Replace;
    ReplaceAround(a, '*', b, "__");
    var a1, b1 := Replace(a, "__", ""), Replace(b, "__", "");
    ReplaceAround(a1, '*', b1, "~~");
    ReplaceAround(Replace(a1, "~~", ""), '*', Replace(b1, "~~", ""), "`");
  }

  lemma DeleteStarless(s: string)
    requires '*' !in s
    ensures '*' !in Delete(s)
  {
    hide Replace;
    ReplaceAdds(s, "__", '*');
    ReplaceAdds(Replace(s, "__", ""), "~~", '*');
    ReplaceAdds(Replace(Replace(s, "__", ""), "~~", ""), "`", '*');
  }

  /** The piece of `s` between two stars with no star in between, if these are two such. */
  predicate Between(s: string, i: nat, j: nat, piece: string) {
    i < j < |s| && s[i] == '*' && s[j] == '*' && piece == s[i + 1..j] && '*' !in piece
  }

  /** Two neighbouring stars have nothing but deleted delimiters between them. */
  ghost predicate StarsMeet(s: string) {
    exists i, j, piece :: Between(s, i, j, piece) && Delete(piece) == ""
  }

  /** The first star of `s` has nothing but deleted delimiters before it. */
  ghost predicate StarFirst(s: string) {
    exists j: nat :: j < |s| && s[j] == '*' && '*' !in s[..j] && Delete(s[..j]) == ""
  }

  /** The text up to the first star. */
  function Starless(s: string): (k: nat)
    ensures k <= |s| && '*' !in s[..k]
    ensures k < |s| ==> s[k] == '*'
  {
    if s == "" || s[0] == '*' then 0
    else
      var k := 1 + Starless(s[1..]);
      assert s[..k] == [s[0]] + s[1..][..k - 1];
      k
  }

  lemma SplitAtStar(s: string, k: nat)
    requires k < |s| && s[k] == '*'
    ensures s == s[..k] + "*" + s[k + 1..]
  {}

  lemma StarFirstIff(s: string)
    ensures StarFirst(s) <==> Delete(s) != "" && Delete(s)[0] == '*'
  {
    hide Delete;
    var k := Starless(s);
    if k == |s| {
      assert s[..k] == s;
      DeleteStarless(s);
      assert forall j :: 0 <= j < |s| ==> s[j] != '*';
    } else {
      SplitAtStar(s, k);
      DeleteAround(s[..k], s[k + 1..]);
      DeleteStarless(s[..k]);
      if Delete(s[..k]) != "" {
        assert Delete(s)[0] == Delete(s[..k])[0];
        forall j: nat | j < |s| && s[j] == '*' && '*' !in s[..j] ensures j == k { OnlyFirst(s, j, k); }
      }
    }
  }

  lemma OnlyFirst(s: string, j: nat, k: nat)
    requires j < |s| && k < |s| && s[j] == '*' && s[k] == '*' && '*' !in s[..j] && '*' !in s[..k]
    ensures j == k
  {}

  lemma NotBefore(s: string, k: nat, i: nat)
    requires k <= |s| && i < |s| && s[i] == '*' && '*' !in s[..k]
    ensures i >= k
  {}

  lemma MeetFirst(s: string, k: nat)
    requires k < |s| && s[k] == '*' && StarFirst(s[k + 1..])
    ensures StarsMeet(s)
  {
    hide Delete;
    var rest := s[k + 1..];
    var j: nat :| j < |rest| && rest[j] == '*' && '*' !in rest[..j] && Delete(rest[..j]) == "";
    assert s[k + 1..k + 1 + j] == rest[..j];
    assert Between(s, k, k + 1 + j, rest[..j]);
  }

  lemma MeetLater(s: string, k: nat)
    requires k <= |s| && StarsMeet(s[k..])
    ensures StarsMeet(s)
  {
    hide Delete;
    var rest := s[k..];
    var i: nat, j: nat, piece :| Between(rest, i, j, piece) && Delete(piece) == "";
    assert rest[i + 1..j] == s[i + k + 1..j + k];
    assert Between(s, i + k, j + k, piece);
  }

  /** Stars that meet are after the first star, or the first star is one of them. */
  lemma StarsMeetStep(s: string, k: nat)
    requires k < |s| && s[k] == '*' && '*' !in s[..k]
    ensures StarsMeet(s) <==> StarFirst(s[k + 1..]) || StarsMeet(s[k + 1..])
  {
    hide Delete;
    var rest := s[k + 1..];
    if StarsMeet(s) {
      var i: nat, j: nat, piece :| Between(s, i, j, piece) && Delete(piece) == "";
      NotBefore(s, k, i);
      if i == k {
        assert piece == rest[..j - k - 1] && rest[j - k - 1] == '*';
      } else {
        assert s[i + 1..j] == rest[i - k..j - k - 1];
        assert Between(rest, i - k - 1, j - k - 1, piece);
      }
    }
    if StarFirst(rest) { MeetFirst(s, k); }
    if StarsMeet(rest) { MeetLater(s, k + 1); }
  }

  lemma SparseAround(a: string, b: string)
    requires '*' !in a
    ensures Sparse(a + "*" + b) <==> Sparse(b) && !(b != "" && b[0] == '*')
  {
    var s, n := a + "*" + b, |a|;
    if Sparse(s) {
      forall i | 0 <= i && i + 1 < |b| ensures b[i] != '*' || b[i + 1] != '*' {
        assert s[n + 1 + i] == b[i] && s[n + 1 + i + 1] == b[i + 1];
      }
      if b != "" { assert s[n] == '*' && s[n + 1] == b[0]; }
    }
    if Sparse(b) && !(b != "" && b[0] == '*') {
      forall i | 0 <= i && i + 1 < |s| ensures s[i] != '*' || s[i + 1] != '*' {
        if i < n { assert s[i] == a[i]; }
        if i > n { assert s[i] == b[i - n - 1] && s[i + 1] == b[i - n - 1 + 1]; }
      }
    }
  }

  lemma {:induction false} DeletedSparseIff(s: string)
    ensures Sparse(Delete(s)) <==> !StarsMeet(s)
  {
    hide Delete, Sparse, StarsMeet, StarFirst;
    var k := Starless(s);
    if k == |s| {
      assert s[..k] == s;
      DeleteStarless(s);
      NoStarsMeet(s);
      SparseStarless(Delete(s));
    } else {
      var rest := s[k + 1..];
      SplitAtStar(s, k);
      DeleteAround(s[..k], rest);
      DeleteStarless(s[..k]);
      SparseAround(Delete(s[..k]), Delete(rest));
      StarFirstIff(rest);
      StarsMeetStep(s, k);
      DeletedSparseIff(rest);
    }
  }

  lemma NoStarsMeet(s: string)
    requires '*' !in s
    ensures !StarsMeet(s)
  {}

  lemma SparseStarless(s: string)
    requires '*' !in s
    ensures Sparse(s)
  {}

  /** Unlike the plain-text format, this one can leave stars behind: it removes "**" first, and
      the later deletions may bring two single stars together. It leaves some exactly when, once
      the double stars are gone, two neighbouring stars have nothing between them but what the
      other deletions take away. */
  lemma StripRemovesStarsIff(text: string)
    ensures '*' !in StripOf(text) <==> !StarsMeet(Replace(Unlinked(text), "**", ""))
  {
    hide DropFrom, Sparse, StarsMeet, Delete, Unlinked;
    DropFromKeepsRuns(BeforeStars(text), 0);
    SparseIffAllIsolated(BeforeStars(text));
    DeletedSparseIff(Replace(Unlinked(text), "**", ""));
  }

  /** A text that the deletions turn into a pair of stars. */
  lemma StripLeavesStars()
    ensures StripOf("*__*") == "**"
  {
    var t := "*__*";
    assert Images(t) == t && Links.Rewrite(t, Links.PlainParens) == t && Autolinks(t) == t;
    assert Unlinked(t) == t;
    Deletions();
  }

  lemma Deletions()
    ensures Replace("*__*", "**", "") == "*__*" && Replace("*__*", "__", "") == "**"
    ensures Replace("**", "~~", "") == "**" && Replace("**", "`", "") == "**"
    ensures DropFrom("**", 0) == "**"
  {
    hide Replace;
    UnderscoresGo();
    StarsStay();
    StarsLeft();
  }

  lemma UnderscoresGo()
    ensures Replace("*__*", "__", "") == "**"
  {
    assert Replace("*", "__", "") == "*" && "__*"[2..] == "*" && "*__*"[1..] == "__*";
    assert Replace("__*", "__", "") == "*";
  }

  lemma StarsStay()
    ensures Replace("*__*", "**", "") == "*__*"
  {
    assert "*__*"[1..] == "__*" && "__*"[1..] == "_*" && "_*"[1..] == "*";
    var p := "**";
    assert p[0] != "_*"[0] && p[0] != "__*"[0] && p[1] != "*__*"[1];
    assert Replace("*", p, "") == "*";
    assert Replace("_*", p, "") == "_*";
  }

  lemma StarsLeft()
    ensures Replace("**", "~~", "") == "**" && Replace("**", "`", "") == "**"
  {}
}
