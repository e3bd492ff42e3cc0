/**
 The reply splitter of the chatbots: a message with Markdown links is sent as texts and media,
 in order, and nothing but white space gets lost on the way.
 */
module ReplySplitter {
  import opened Strings
  import opened Sequences

  // ---------------------------------------------------------------- white space

  /** The characters that `trim` removes. */
  predicate IsSpace(c: char) {
    || '\t' <= c <= '\r' || c == ' ' || c == '\U{00A0}' || c == '\U{1680}' || '\U{2000}' <= c <= '\U{200A}'
    || c == '\U{2028}' || c == '\U{2029}' || c == '\U{202F}' || c == '\U{205F}' || c == '\U{3000}' || c == '\U{FEFF}'
  }

  /** The code points of ECMAScript's white space and line terminators, 25 in all. */
  predicate IsTrimmedCode(n: int) {
    || 9 <= n <= 13 || n == 32 || n == 160 || n == 5760 || 8192 <= n <= 8202 || n == 8232 || n == 8233 || n == 8239
    || n == 8287 || n == 12288 || n == 65279
  }

  lemma SpaceIsTrimmed(c: char)
    ensures IsSpace(c) <==> IsTrimmedCode(c as int)
  {
  }

  /** A way of reading text that sees none of these. */
  ghost predicate Ignores(keep: char -> bool) {
    forall c :: IsTrimmedCode(c as int) ==> !keep(c)
  }

  /** What remains of a text when white space does not count. */
  function Ink(s: string): string {
    Filter((c: char) => !IsSpace(c), s)
  }

  lemma {:induction false} InkAppend(s: string, t: string)
    ensures Ink(s + t) == Ink(s) + Ink(t)
  {
    if t == [] {
      assert s + t == s;
    } else {
      InkAppend(s, t[..|t| - 1]);
      assert (s + t)[..|s + t| - 1] == s + t[..|t| - 1];
    }
  }

  lemma {:induction false} KeptOfInk(keep: char -> bool, s: string)
    requires Ignores(keep)
    ensures Filter(keep, Ink(s)) == Filter(keep, s)
  {
    if s != [] {
      var init, last := s[..|s| - 1], s[|s| - 1];
      KeptOfInk(keep, init);
      SpaceIsTrimmed(last);
      if !IsSpace(last) { assert (Ink(init) + [last])[..|Ink(init)|] == Ink(init); }
    }
  }

  /** Texts with the same ink read the same to whoever ignores white space. */
  lemma SameInkReadsSame(s: string, t: string)
    requires Ink(s) == Ink(t)
    ensures forall keep :: Ignores(keep) ==> Filter(keep, s) == Filter(keep, t)
  {
    forall keep | Ignores(keep) ensures Filter(keep, s) == Filter(keep, t) {
      KeptOfInk(keep, s);
      KeptOfInk(keep, t);
    }
  }

  predicate Blank(s: string) {
    forall i :: 0 <= i < |s| ==> IsSpace(s[i])
  }

  lemma {:induction false} BlankIff(s: string)
    ensures Blank(s) <==> Ink(s) == ""
  {
    if s != [] {
      var init := s[..|s| - 1];
      BlankIff(init);
      assert Blank(s) <==> Blank(init) && IsSpace(s[|s| - 1]);
    }
  }

  function TrimStart(s: string): string {
    if s != [] && IsSpace(s[0]) then TrimStart(s[1..]) else s
  }

  function TrimEnd(s: string): string {
    if s != [] && IsSpace(s[|s| - 1]) then TrimEnd(s[..|s| - 1]) else s
  }

  function Trim(s: string): string {
    TrimEnd(TrimStart(s))
  }

  /** No white space at either end. */
  predicate Trimmed(s: string) {
    s == [] || (!IsSpace(s[0]) && !IsSpace(s[|s| - 1]))
  }

  lemma {:induction false} TrimStartKeepsInk(s: string)
    ensures Ink(TrimStart(s)) == Ink(s)
    ensures TrimStart(s) == [] || !IsSpace(TrimStart(s)[0])
  {
    if s != [] && IsSpace(s[0]) {
      TrimStartKeepsInk(s[1..]);
      InkAppend(s[..1], s[1..]);
      assert s == s[..1] + s[1..];
      BlankIff(s[..1]);
    }
  }

  lemma {:induction false} TrimEndKeepsInk(s: string)
    ensures Ink(TrimEnd(s)) == Ink(s) && TrimEnd(s) <= s
    ensures TrimEnd(s) == [] || !IsSpace(TrimEnd(s)[|TrimEnd(s)| - 1])
  {
    if s != [] && IsSpace(s[|s| - 1]) { TrimEndKeepsInk(s[..|s| - 1]); }
  }

  /** `trim` keeps everything but white space, and is empty exactly on a blank text. */
  lemma TrimKeepsInk(s: string)
    ensures Ink(Trim(s)) == Ink(s) && Trimmed(Trim(s))
    ensures Trim(s) == "" <==> Ink(s) == ""
  {
    TrimStartKeepsInk(s);
    TrimEndKeepsInk(TrimStart(s));
    BlankIff(Trim(s));
    if Trim(s) != [] { assert TrimStart(s)[0] == Trim(s)[0]; }
  }

  // ---------------------------------------------------------------- paragraphs

  predicate BreakAt(s: string, i: int) {
    0 <= i < |s| - 1 && s[i] == '\n' && s[i + 1] == '\n'
  }

  predicate HasBreak(s: string) {
    exists i :: 0 <= i < |s| && BreakAt(s, i)
  }

  /** Cutting at double line breaks; `part` is the paragraph read so far. */
  function SplitAt(part: string, s: string): (parts: seq<string>)
    ensures parts != []
    decreases |s|
  {
    if |s| < 2 then [part + s]
    else if s[0] == '\n' && s[1] == '\n' then [part] + SplitAt("", s[2..])
    else SplitAt(part + [s[0]], s[1..])
  }

  function Join(parts: seq<string>): string {
    if parts == [] then ""
    else if |parts| == 1 then parts[0]
    else parts[0] + "\n\n" + Join(parts[1..])
  }

  lemma {:induction false} SplitJoins(part: string, s: string)
    ensures Join(SplitAt(part, s)) == part + s
    decreases |s|
  {
    if |s| < 2 {
    } else if s[0] == '\n' && s[1] == '\n' {
      SplitJoins("", s[2..]);
      assert SplitAt(part, s)[1..] == SplitAt("", s[2..]);
      assert "" + s[2..] == s[2..];
      assert s == "\n\n" + s[2..];
      Assoc(part, "\n\n", s[2..]);
    } else {
      SplitJoins(part + [s[0]], s[1..]);
      Assoc(part, [s[0]], s[1..]);
      assert s == [s[0]] + s[1..];
    }
  }

  lemma ExtendWithoutBreak(part: string, c: char)
    requires !HasBreak(part) && (part != [] && part[|part| - 1] == '\n' ==> c != '\n')
    ensures !HasBreak(part + [c])
  {
    forall i | 0 <= i < |part + [c]| ensures !BreakAt(part + [c], i) {
      assert i < |part| ==> !BreakAt(part, i);
    }
  }

  lemma {:induction false} SplitLeavesNoBreak(part: string, s: string)
    requires !HasBreak(part) && (part != [] && part[|part| - 1] == '\n' && s != [] ==> s[0] != '\n')
    ensures var parts := SplitAt(part, s);
            !HasBreak(parts[|parts| - 1]) && forall i :: 0 <= i < |parts| - 1 ==> !HasBreak(parts[i] + "\n")
    decreases |s|
  {
    if |s| < 2 {
      if s == [] { assert part + s == part; } else { ExtendWithoutBreak(part, s[0]); assert s == [s[0]]; }
    } else if s[0] == '\n' && s[1] == '\n' {
      ExtendWithoutBreak(part, '\n');
      SplitLeavesNoBreak("", s[2..]);
      var parts, rest := SplitAt(part, s), SplitAt("", s[2..]);
      forall i | 0 <= i < |parts| - 1 ensures !HasBreak(parts[i] + "\n") {
        assert i > 0 ==> parts[i] == rest[i - 1];
      }
    } else {
      ExtendWithoutBreak(part, s[0]);
      SplitLeavesNoBreak(part + [s[0]], s[1..]);
    }
  }

  /**
   Splitting loses nothing, leaves no double line break in any part, and cuts at the first
   place it can: these three determine the parts.
   */
  lemma SplitIsExact(s: string)
    ensures var parts := SplitAt("", s);
            && Join(parts) == s
            && !HasBreak(parts[|parts| - 1])
            && forall i :: 0 <= i < |parts| - 1 ==> !HasBreak(parts[i] + "\n")
  {
    SplitJoins("", s);
    SplitLeavesNoBreak("", s);
    assert "" + s == s;
  }

  /** No two line feeds in a row. */
  predicate NoBlankLine(s: string) {
    forall i :: 0 <= i < |s| - 1 ==> !(s[i] as int == 10 && s[i + 1] as int == 10)
  }

  lemma {:induction false} SplitFirst(part: string, a: string, b: string)
    requires NoBlankLine(a + "\n")
    ensures SplitAt(part, a + ("\n\n" + b)) == [part + a] + SplitAt("", b)
    decreases |a|
  {
    var s, t := a + ("\n\n" + b), a + "\n";
    if a == "" {
      assert s == "\n\n" + b && s[2..] == b && part + a == part;
    } else {
      assert s[0] == t[0] && s[1] == t[1] && s[1..] == a[1..] + ("\n\n" + b);
      assert t[1..] == a[1..] + "\n";
      SplitFirst(part + [a[0]], a[1..], b);
      Assoc(part, [a[0]], a[1..]);
      assert [a[0]] + a[1..] == a;
    }
  }

  /** Splitting cuts at the first double line feed, then goes on behind it. */
  lemma SplitCuts(a: string, b: string)
    requires NoBlankLine(a + "\n")
    ensures SplitAt("", a + ("\n\n" + b)) == [a] + SplitAt("", b)
  {
    SplitFirst("", a, b);
    assert "" + a == a;
  }

  /** And a text without one stays whole. */
  lemma {:induction false} SplitWhole(part: string, a: string)
    requires NoBlankLine(a)
    ensures SplitAt(part, a) == [part + a]
    decreases |a|
  {
    if |a| >= 2 {
      SplitWhole(part + [a[0]], a[1..]);
      Assoc(part, [a[0]], a[1..]);
      assert [a[0]] + a[1..] == a;
    }
  }

  function Concat(texts: seq<string>): string {
    if texts == [] then "" else Concat(texts[..|texts| - 1]) + texts[|texts| - 1]
  }

  lemma {:induction false} ConcatAppend(a: seq<string>, b: seq<string>)
    ensures Concat(a + b) == Concat(a) + Concat(b)
  {
    if b == [] {
      assert a + b == a;
    } else {
      ConcatAppend(a, b[..|b| - 1]);
      assert (a + b)[..|a + b| - 1] == a + b[..|b| - 1];
    }
  }

  lemma {:induction false} JoinInk(parts: seq<string>)
    ensures Ink(Join(parts)) == Ink(Concat(parts))
  {
    if |parts| > 1 {
      JoinInk(parts[1..]);
      InkAppend(parts[0] + "\n\n", Join(parts[1..]));
      InkAppend(parts[0], "\n\n");
      BlankIff("\n\n");
      ConcatAppend(parts[..1], parts[1..]);
      assert parts[..1] + parts[1..] == parts;
      InkAppend(parts[0], Concat(parts[1..]));
      assert Concat(parts[..1]) == parts[0] by { assert parts[..1][..0] == []; }
    } else if |parts| == 1 {
      assert parts[..0] == [] && "" + parts[0] == parts[0];
    }
  }

  // ---------------------------------------------------------------- links

  datatype Kind = Image | Audio | Video | Document

  /** One match of the link pattern: `full` at `index`, with its caption and address. */
  datatype Link = Link(index: nat, full: string, alt: string, url: string)

  /** The text after the last dot. */
  function Extension(url: string): string {
    if url == [] || url[|url| - 1] == '.' then "" else Extension(url[..|url| - 1]) + [url[|url| - 1]]
  }

  function MediaType(lower: string -> string, url: string): Option<Kind> {
    var extension := lower(Extension(url));
    if extension in ["jpg", "jpeg", "png", "gif", "bmp", "webp"] then Some(Image)
    else if extension in ["mp3", "wav", "aac", "ogg"] then Some(Audio)
    else if extension in ["mp4", "avi", "mkv", "mov"] then Some(Video)
    else if extension in ["pdf", "doc", "docx", "xls", "xlsx", "ppt", "pptx", "txt"] then Some(Document)
    else None
  }

  lemma {:induction false} ExtensionReads(stem: string, ext: string)
    requires '.' !in ext
    ensures Extension(stem + ("." + ext)) == ext
  {
    var url := stem + ("." + ext);
    if ext == "" {
      assert url == stem + "." && url[|url| - 1] == '.';
    } else {
      var n := |ext| - 1;
      ExtensionReads(stem, ext[..n]);
      assert url[..|url| - 1] == stem + ("." + ext[..n]) && url[|url| - 1] == ext[n];
      assert ext == ext[..n] + [ext[n]];
    }
  }

  /** What follows the last dot of an address tells the kind of media, in the locale's lower case. */
  lemma MediaByExtension(lower: string -> string, stem: string, ext: string)
    requires '.' !in ext
    ensures var kind := MediaType(lower, stem + ("." + ext));
            && (kind == Some(Image) <==> lower(ext) in {"jpg", "jpeg", "png", "gif", "bmp", "webp"})
            && (kind == Some(Audio) <==> lower(ext) in {"mp3", "wav", "aac", "ogg"})
            && (kind == Some(Video) <==> lower(ext) in {"mp4", "avi", "mkv", "mov"})
            && (kind == Some(Document)
                <==> lower(ext) in {"pdf", "doc", "docx", "xls", "xlsx", "ppt", "pptx", "txt"})
  {
    ExtensionReads(stem, ext);
  }

  /** Where the first k matches end. */
  function End(links: seq<Link>, k: nat): nat
    requires k <= |links|
  {
    if k == 0 then 0 else links[k - 1].index + |links[k - 1].full|
  }

  predicate MatchAt(message: string, links: seq<Link>, k: nat)
    requires k < |links|
  {
    var l := links[k];
    && End(links, k) <= l.index && 0 < |l.full| && l.index + |l.full| <= |message|
    && message[l.index..l.index + |l.full|] == l.full
  }

  /** What a global pattern finds: matches in order that do not overlap. */
  predicate Matches(message: string, links: seq<Link>) {
    forall k :: 0 <= k < |links| ==> MatchAt(message, links, k)
  }

  lemma EndFits(message: string, links: seq<Link>, k: nat)
    requires Matches(message, links) && k <= |links|
    ensures End(links, k) <= |message|
  {
    if k > 0 { assert MatchAt(message, links, k - 1); }
  }

  // ---------------------------------------------------------------- what is sent

  datatype Sent = Text(text: string) | Media(kind: Kind, link: Link, delivered: bool)

  /** What the reader of the chat gets to see. */
  function Shown(sent: seq<Sent>): string {
    if sent == [] then ""
    else
      var last := sent[|sent| - 1];
      Shown(sent[..|sent| - 1]) + match last
        case Text(t) => t
        case Media(_, link, delivered) => if delivered then link.full else ""
  }

  lemma ShownAppend(sent: seq<Sent>, x: Sent)
    ensures Shown(sent + [x]) == Shown(sent) + match x
              case Text(t) => t
              case Media(_, link, delivered) => if delivered then link.full else ""
  {
    assert (sent + [x])[..|sent|] == sent;
  }

  /** What the reply shows for one link. */
  function Standing(l: Link, lower: string -> string, fails: nat -> bool): string {
    if MediaType(lower, l.url).Some? && fails(l.index) then l.alt + ": " + l.url else l.full
  }

  /** What the message up to the end of link k - 1 becomes. */
  function ReplyUpTo(message: string, links: seq<Link>, k: nat, lower: string -> string, fails: nat -> bool): string
    requires Matches(message, links) && k <= |links|
  {
    if k == 0 then ""
    else
      assert MatchAt(message, links, k - 1);
      ReplyUpTo(message, links, k - 1, lower, fails)
      + message[End(links, k - 1)..links[k - 1].index] + Standing(links[k - 1], lower, fails)
  }

  /** The message once the media that fail, by position, are replaced by caption and address. */
  function Reply(message: string, links: seq<Link>, lower: string -> string, fails: nat -> bool): string
    requires Matches(message, links)
  {
    EndFits(message, links, |links|);
    ReplyUpTo(message, links, |links|, lower, fails) + message[End(links, |links|)..]
  }

  lemma ThreeSlices(s: string, a: nat, b: nat, c: nat)
    requires a <= b <= c <= |s|
    ensures s[..c] == s[..a] + s[a..b] + s[b..c]
  {
  }

  lemma {:induction false} UpToWithoutFailures(message: string, links: seq<Link>, k: nat, lower: string -> string,
                                               fails: nat -> bool)
    requires Matches(message, links) && k <= |links|
    requires forall i :: 0 <= i < |links| && MediaType(lower, links[i].url).Some? ==> !fails(links[i].index)
    ensures End(links, k) <= |message| && ReplyUpTo(message, links, k, lower, fails) == message[..End(links, k)]
  {
    EndFits(message, links, k);
    if k > 0 {
      UpToWithoutFailures(message, links, k - 1, lower, fails);
      assert MatchAt(message, links, k - 1);
      var from, l := End(links, k - 1), links[k - 1];
      ThreeSlices(message, from, l.index, End(links, k));
    }
  }

  /** If nothing fails, that is the message itself. */
  lemma ReplyWithoutFailures(message: string, links: seq<Link>, lower: string -> string, fails: nat -> bool)
    requires Matches(message, links)
    requires forall i :: 0 <= i < |links| && MediaType(lower, links[i].url).Some? ==> !fails(links[i].index)
    ensures Reply(message, links, lower, fails) == message
  {
    UpToWithoutFailures(message, links, |links|, lower, fails);
  }

  /** The media attempts that the first k links call for. */
  function Attempts(links: seq<Link>, k: nat, lower: string -> string, fails: nat -> bool): seq<Sent>
    requires k <= |links|
  {
    if k == 0 then []
    else
      var l := links[k - 1];
      var init := Attempts(links, k - 1, lower, fails);
      var kind := MediaType(lower, l.url);
      if kind.Some? then init + [Media(kind.value, l, !fails(l.index))] else init
  }

  function MediaOf(sent: seq<Sent>): seq<Sent> {
    Filter((x: Sent) => x.Media?, sent)
  }

  /** A text has ink and is of one paragraph, or of one piece without white space around it. */
  predicate WellText(text: string, splitMessages: bool) {
    !Blank(text) && if splitMessages then !HasBreak(text) else Trimmed(text)
  }

  predicate IsMediaAt(sent: seq<Sent>, i: int) {
    0 <= i < |sent| && sent[i].Media?
  }

  /** The shape of what goes out; unsplit, no text follows a text. */
  ghost predicate WellSent(sent: seq<Sent>, splitMessages: bool) {
    && (forall x :: x in sent && x.Text? ==> WellText(x.text, splitMessages))
    && (!splitMessages ==> forall i :: 0 <= i < |sent| - 1 ==> IsMediaAt(sent, i) || IsMediaAt(sent, i + 1))
  }

  // ---------------------------------------------------------------- sending

  method SplitMessageByDoubleLineBreaks(message: string) returns (parts: seq<string>)
    ensures parts == Filter((p: string) => Trim(p) != "", SplitAt("", message))
    ensures Ink(Concat(parts)) == Ink(message)
    ensures forall p :: p in parts ==> !Blank(p) && !HasBreak(p)
  {
    var all := SplitAt("", message);
    parts := Filter((p: string) => Trim(p) != "", all);
    SplitIsExact(message);
    JoinInk(all);
    DropBlankParts(all);
    PartsHaveInk(all);
  }

  lemma PartsHaveInk(parts: seq<string>)
    requires parts != [] && !HasBreak(parts[|parts| - 1])
    requires forall i :: 0 <= i < |parts| - 1 ==> !HasBreak(parts[i] + "\n")
    ensures forall p :: p in Filter((p: string) => Trim(p) != "", parts) ==> !Blank(p) && !HasBreak(p)
  {
    FilterMembers((p: string) => Trim(p) != "", parts);
    forall p | p in parts && Trim(p) != "" ensures !Blank(p) && !HasBreak(p) {
      TrimKeepsInk(p);
      BlankIff(p);
      if HasBreak(p) { BreakStays(p, "\n"); }
    }
  }

  lemma BreakStays(p: string, q: string)
    requires HasBreak(p)
    ensures HasBreak(p + q)
  {
    var i :| 0 <= i < |p| && BreakAt(p, i);
    assert BreakAt(p + q, i);
  }

  lemma {:induction false} DropBlankParts(parts: seq<string>)
    ensures Ink(Concat(Filter((p: string) => Trim(p) != "", parts))) == Ink(Concat(parts))
  {
    if parts != [] {
      var init, last := parts[..|parts| - 1], parts[|parts| - 1];
      var kept := Filter((p: string) => Trim(p) != "", init);
      DropBlankParts(init);
      TrimKeepsInk(last);
      InkAppend(Concat(init), last);
      InkAppend(Concat(kept), last);
      assert (kept + [last])[..|kept|] == kept;
    }
  }

  /** Sends a trimmed text, whole or by paragraph. */
  method SendFormattedText(before: seq<Sent>, text: string, splitMessages: bool) returns (sent: seq<Sent>)
    requires WellSent(before, splitMessages) && (before != [] && !splitMessages ==> before[|before| - 1].Media?)
    requires Trimmed(text) && Ink(text) != ""
    ensures WellSent(sent, splitMessages)
    ensures Ink(Shown(sent)) == Ink(Shown(before)) + Ink(text) && MediaOf(sent) == MediaOf(before)
  {
    sent := before;
    BlankIff(text);
    if splitMessages {
      var messageParts := SplitMessageByDoubleLineBreaks(text);
      for index := 0 to |messageParts|
        invariant WellSent(sent, splitMessages) && MediaOf(sent) == MediaOf(before)
        invariant Ink(Shown(sent)) == Ink(Shown(before)) + Ink(Concat(messageParts[..index]))
      {
        var message := messageParts[index];
        PartSent(before, sent, messageParts, index);
        WellSentText(sent, message, splitMessages);
        sent := sent + [Text(message)];
      }
      assert messageParts[..|messageParts|] == messageParts;
    } else {
      SentText(sent, text);
      WellSentText(sent, text, splitMessages);
      sent := sent + [Text(text)];
    }
  }

  lemma SentText(sent: seq<Sent>, text: string)
    ensures Ink(Shown(sent + [Text(text)])) == Ink(Shown(sent)) + Ink(text)
    ensures MediaOf(sent + [Text(text)]) == MediaOf(sent)
  {
    ShownAppend(sent, Text(text));
    InkAppend(Shown(sent), text);
    assert (sent + [Text(text)])[..|sent|] == sent;
  }

  lemma PartSent(before: seq<Sent>, sent: seq<Sent>, parts: seq<string>, index: nat)
    requires index < |parts|
    requires Ink(Shown(sent)) == Ink(Shown(before)) + Ink(Concat(parts[..index]))
    ensures Ink(Shown(sent + [Text(parts[index])])) == Ink(Shown(before)) + Ink(Concat(parts[..index + 1]))
    ensures MediaOf(sent + [Text(parts[index])]) == MediaOf(sent)
  {
    SentText(sent, parts[index]);
    assert parts[..index + 1][..index] == parts[..index];
    InkAppend(Concat(parts[..index]), parts[index]);
    Assoc(Ink(Shown(before)), Ink(Concat(parts[..index])), Ink(parts[index]));
  }

  lemma WellSentText(sent: seq<Sent>, text: string, splitMessages: bool)
    requires WellSent(sent, splitMessages) && !Blank(text)
    requires if splitMessages then !HasBreak(text) else Trimmed(text) && (sent != [] ==> sent[|sent| - 1].Media?)
    ensures WellSent(sent + [Text(text)], splitMessages)
  {
    var all := sent + [Text(text)];
    forall i | !splitMessages && 0 <= i < |all| - 1 ensures IsMediaAt(all, i) || IsMediaAt(all, i + 1) {
      assert i < |sent| - 1 ==> IsMediaAt(sent, i) || IsMediaAt(sent, i + 1);
    }
  }

  lemma WellSentMedia(sent: seq<Sent>, x: Sent, splitMessages: bool)
    requires WellSent(sent, splitMessages) && x.Media?
    ensures WellSent(sent + [x], splitMessages)
  {
    var all := sent + [x];
    forall i | !splitMessages && 0 <= i < |all| - 1 ensures IsMediaAt(all, i) || IsMediaAt(all, i + 1) {
      assert i < |sent| - 1 ==> IsMediaAt(sent, i) || IsMediaAt(sent, i + 1);
    }
  }

  lemma SentMedia(sent: seq<Sent>, x: Sent)
    requires x.Media?
    ensures Ink(Shown(sent + [x])) == Ink(Shown(sent)) + Ink(if x.delivered then x.link.full else "")
    ensures MediaOf(sent + [x]) == MediaOf(sent) + [x]
  {
    ShownAppend(sent, x);
    InkAppend(Shown(sent), if x.delivered then x.link.full else "");
    assert (sent + [x])[..|sent|] == sent;
  }

  /** Sends the buffered text, if there is any, and empties the buffer. */
  method FlushText(before: seq<Sent>, textBuffer: string, splitMessages: bool) returns (sent: seq<Sent>, left: string)
    requires WellSent(before, splitMessages) && (before != [] ==> before[|before| - 1].Media?)
    ensures WellSent(sent, splitMessages) && MediaOf(sent) == MediaOf(before) && Blank(left)
    ensures Ink(Shown(sent)) == Ink(Shown(before)) + Ink(textBuffer) && Ink(left) == ""
    ensures Trim(textBuffer) == "" ==> sent == before && left == textBuffer
  {
    sent, left := before, textBuffer;
    TrimKeepsInk(textBuffer);
    if Trim(textBuffer) != "" {
      sent := SendFormattedText(before, Trim(textBuffer), splitMessages);
      left := "";
    }
    BlankIff(left);
  }

  /** A media link: the text before it goes out first; a failed item leaves caption and address. */
  method SendMedia(before: seq<Sent>, buffered: string, kind: Kind, link: Link, splitMessages: bool, failed: bool)
    returns (sent: seq<Sent>, textBuffer: string)
    requires WellSent(before, splitMessages) && (before != [] ==> before[|before| - 1].Media?)
    ensures Ink(Shown(sent)) + Ink(textBuffer)
         == Ink(Shown(before)) + Ink(buffered) + Ink(if failed then link.alt + ": " + link.url else link.full)
    ensures MediaOf(sent) == MediaOf(before) + [Media(kind, link, !failed)]
    ensures WellSent(sent, splitMessages) && sent != [] && sent[|sent| - 1].Media?
  {
    sent, textBuffer := FlushText(before, buffered, splitMessages);
    var attempt, substitute := Media(kind, link, !failed), link.alt + ": " + link.url;
    SentMedia(sent, attempt);
    WellSentMedia(sent, attempt, splitMessages);
    AfterFlush(Ink(Shown(sent)), textBuffer, substitute);
    AfterFlush(Ink(Shown(sent)), textBuffer, link.full);
    sent := sent + [attempt];
    if failed { textBuffer := textBuffer + substitute; }
  }

  /** With no ink held, a token counts the same whether it is shown or held. */
  lemma AfterFlush(shown: string, left: string, token: string)
    requires Ink(left) == ""
    ensures shown + Ink("") + Ink(left + token) == shown + Ink(token)
    ensures shown + Ink(token) + Ink(left) == shown + Ink(token)
  {
    InkAppend(left, token);
  }

  /** One link: media are sent, a plain link stays within the text. */
  method HandleLink(before: seq<Sent>, buffered: string, link: Link, splitMessages: bool, lower: string -> string,
                    fails: nat -> bool)
    returns (sent: seq<Sent>, textBuffer: string)
    requires WellSent(before, splitMessages) && (before != [] ==> before[|before| - 1].Media?)
    ensures Ink(Shown(sent)) + Ink(textBuffer) == Ink(Shown(before)) + Ink(buffered) + Ink(Standing(link, lower, fails))
    ensures var kind := MediaType(lower, link.url);
            MediaOf(sent) == MediaOf(before) + if kind.Some? then [Media(kind.value, link, !fails(link.index))] else []
    ensures WellSent(sent, splitMessages) && (sent != [] ==> sent[|sent| - 1].Media?)
  {
    var mediaType := MediaType(lower, link.url);
    if mediaType.Some? {
      sent, textBuffer := SendMedia(before, buffered, mediaType.value, link, splitMessages, fails(link.index));
    } else {
      InkAppend(buffered, link.full);
      Assoc(Ink(Shown(before)), Ink(buffered), Ink(link.full));
      sent, textBuffer := before, buffered + link.full;
    }
  }

  /** A link and the text before it go the same way on both sides. */
  lemma LinkConserved(shown: string, held: string, soFar: string, gap: string, standing: string)
    requires shown + Ink(held) == Ink(soFar)
    ensures shown + Ink(held + gap) + Ink(standing) == Ink(soFar + gap + standing)
  {
    InkAppend(held, gap);
    InkAppend(soFar + gap, standing);
    InkAppend(soFar, gap);
    Assoc(shown, Ink(held), Ink(gap));
  }

  /** One round of the loop: the text up to the match, then the match. */
  method HandleMatch(before: seq<Sent>, held: string, message: string, links: seq<Link>, k: nat, lastIndex: nat,
                     splitMessages: bool, lower: string -> string, fails: nat -> bool)
    returns (sent: seq<Sent>, textBuffer: string)
    requires Matches(message, links) && k < |links| && lastIndex == End(links, k)
    requires Ink(Shown(before)) + Ink(held) == Ink(ReplyUpTo(message, links, k, lower, fails))
    requires MediaOf(before) == Attempts(links, k, lower, fails)
    requires WellSent(before, splitMessages) && (before != [] ==> before[|before| - 1].Media?)
    ensures Ink(Shown(sent)) + Ink(textBuffer) == Ink(ReplyUpTo(message, links, k + 1, lower, fails))
    ensures MediaOf(sent) == Attempts(links, k + 1, lower, fails)
    ensures WellSent(sent, splitMessages) && (sent != [] ==> sent[|sent| - 1].Media?)
  {
    assert MatchAt(message, links, k);
    var beforeText := message[lastIndex..links[k].index];
    LinkConserved(Ink(Shown(before)), held, ReplyUpTo(message, links, k, lower, fails), beforeText,
                  Standing(links[k], lower, fails));
    sent, textBuffer := HandleLink(before, held + beforeText, links[k], splitMessages, lower, fails);
  }

  lemma RestConserved(shown: string, held: string, soFar: string, rest: string)
    requires shown + Ink(held) == Ink(soFar)
    ensures shown + Ink(held + rest) == Ink(soFar + rest)
    ensures Ink(rest) == "" ==> shown + Ink(held) == Ink(soFar + rest)
  {
    InkAppend(held, rest);
    InkAppend(soFar, rest);
    Assoc(shown, Ink(held), Ink(rest));
  }

  /** The text after the last match, unless it is blank, joins what is held; then all of it goes out. */
  method SendRest(before: seq<Sent>, held: string, message: string, lastIndex: nat, ghost soFar: string,
                  splitMessages: bool)
    returns (sent: seq<Sent>)
    requires lastIndex <= |message| && Ink(Shown(before)) + Ink(held) == Ink(soFar)
    requires WellSent(before, splitMessages) && (before != [] ==> before[|before| - 1].Media?)
    ensures Ink(Shown(sent)) == Ink(soFar + message[lastIndex..])
    ensures WellSent(sent, splitMessages) && MediaOf(sent) == MediaOf(before)
  {
    var textBuffer := held;
    RestConserved(Ink(Shown(before)), held, soFar, message[lastIndex..]);
    if lastIndex < |message| {
      var remainingText := message[lastIndex..];
      TrimKeepsInk(remainingText);
      if Trim(remainingText) != "" { textBuffer := textBuffer + remainingText; }
    }
    var left;
    sent, left := FlushText(before, textBuffer, splitMessages);
  }

  /** The loop over the matches. */
  method SendMatches(message: string, links: seq<Link>, splitMessages: bool, lower: string -> string,
                     fails: nat -> bool)
    returns (sent: seq<Sent>, textBuffer: string, lastIndex: nat)
    requires Matches(message, links)
    ensures lastIndex == End(links, |links|)
    ensures Ink(Shown(sent)) + Ink(textBuffer) == Ink(ReplyUpTo(message, links, |links|, lower, fails))
    ensures MediaOf(sent) == Attempts(links, |links|, lower, fails)
    ensures WellSent(sent, splitMessages) && (sent != [] ==> sent[|sent| - 1].Media?)
  {
    sent, textBuffer, lastIndex := [], "", 0;
    for k := 0 to |links|
      invariant lastIndex == End(links, k)
      invariant Ink(Shown(sent)) + Ink(textBuffer) == Ink(ReplyUpTo(message, links, k, lower, fails))
      invariant MediaOf(sent) == Attempts(links, k, lower, fails)
      invariant WellSent(sent, splitMessages) && (sent != [] ==> sent[|sent| - 1].Media?)
    {
      sent, textBuffer := HandleMatch(sent, textBuffer, message, links, k, lastIndex, splitMessages, lower, fails);
      lastIndex := links[k].index + |links[k].full|;
    }
  }

  lemma EmptyMessage(message: string, links: seq<Link>, lower: string -> string, fails: nat -> bool)
    requires message == "" && Matches(message, links)
    ensures Reply(message, links, lower, fails) == "" && Attempts(links, |links|, lower, fails) == []
  {
    assert links != [] ==> MatchAt(message, links, 0);
  }

  /**
   Conservation of text: white space apart, the texts and delivered media in the order they
   were sent show the message, with caption and address for each media item that failed.
   Every media link is attempted once, in order; no blank text is sent.
   */
  method SendMessageWhatsApp(message: string, links: seq<Link>, splitMessages: bool, lower: string -> string,
                             fails: nat -> bool)
    returns (sent: seq<Sent>)
    requires Matches(message, links)
    ensures Ink(Shown(sent)) == Ink(Reply(message, links, lower, fails))
    ensures MediaOf(sent) == Attempts(links, |links|, lower, fails)
    ensures WellSent(sent, splitMessages)
    ensures forall keep :: Ignores(keep) ==>
              Filter(keep, Shown(sent)) == Filter(keep, Reply(message, links, lower, fails))
    ensures forall x :: x in sent && x.Text? ==> exists i :: 0 <= i < |x.text| && !IsTrimmedCode(x.text[i] as int)
    ensures !splitMessages ==>
              forall x :: x in sent && x.Text? ==>
                !IsTrimmedCode(x.text[0] as int) && !IsTrimmedCode(x.text[|x.text| - 1] as int)
    ensures splitMessages ==>
              forall x, i :: x in sent && x.Text? && 0 <= i < |x.text| - 1 ==>
                !(x.text[i] as int == 10 && x.text[i + 1] as int == 10)
  {
    if message == "" {
      EmptyMessage(message, links, lower, fails);
      return [];
    }
    var textBuffer, lastIndex;
    sent, textBuffer, lastIndex := SendMatches(message, links, splitMessages, lower, fails);
    EndFits(message, links, |links|);
    sent := SendRest(sent, textBuffer, message, lastIndex, ReplyUpTo(message, links, |links|, lower, fails),
                     splitMessages);
    SameInkReadsSame(Shown(sent), Reply(message, links, lower, fails));
    TextsRead(sent, splitMessages);
  }

  /** The texts that go out, in terms of their code points. */
  lemma TextsRead(sent: seq<Sent>, splitMessages: bool)
    requires WellSent(sent, splitMessages)
    ensures forall x :: x in sent && x.Text? ==> exists i :: 0 <= i < |x.text| && !IsTrimmedCode(x.text[i] as int)
    ensures !splitMessages ==>
              forall x :: x in sent && x.Text? ==>
                !IsTrimmedCode(x.text[0] as int) && !IsTrimmedCode(x.text[|x.text| - 1] as int)
    ensures splitMessages ==>
              forall x, i :: x in sent && x.Text? && 0 <= i < |x.text| - 1 ==>
                !(x.text[i] as int == 10 && x.text[i + 1] as int == 10)
  {
    forall x | x in sent && x.Text?
      ensures exists i :: 0 <= i < |x.text| && !IsTrimmedCode(x.text[i] as int)
      ensures !splitMessages ==>
                !IsTrimmedCode(x.text[0] as int) && !IsTrimmedCode(x.text[|x.text| - 1] as int)
    {
      var i :| 0 <= i < |x.text| && !IsSpace(x.text[i]);
      SpaceIsTrimmed(x.text[i]);
      SpaceIsTrimmed(x.text[0]);
      SpaceIsTrimmed(x.text[|x.text| - 1]);
    }
    forall x, i | splitMessages && x in sent && x.Text? && 0 <= i < |x.text| - 1
      ensures !(x.text[i] as int == 10 && x.text[i + 1] as int == 10)
    {
      assert !BreakAt(x.text, i);
    }
  }
}
