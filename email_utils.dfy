/**
 * EmailUtils: the depth-first walks over a parsed MIME tree that collect the distinct body
 * text fragments (getContent) and the named attachments (getAttachments), and the string
 * steps around the HTML sanitiser.
 */
module EmailUtils {
  import opened Nullable
  import opened StringUtils
  import opened Ordered

  newtype byte = b: int | 0 <= b < 256

  /** A parsed MIME part; the message itself is the root part. */
  datatype Part = Part(mimeType: string, disposition: Option<string>, fileName: Option<string>, content: Content)

  /** What Part.getContent returns: a String, a byte stream, or a Multipart of body parts. */
  datatype Content = Text(text: string) | Bytes(data: seq<byte>) | Multi(parts: seq<Part>)

  /**
   * The foreign behaviour the walks call into, left uninterpreted:
   * `render` parses with jsoup, switches pretty printing off, inserts SENTINEL before every
   * <br> and <p> element and serialises the document (EmailUtils.java:86-94);
   * `clean` is Jsoup.clean with the Safelist.none() policy (EmailUtils.java:95);
   * `objectString` is String.valueOf of a content object that is not a String;
   * `streamBytes` is what Part.getInputStream yields for content that is not a byte stream.
   */
  datatype Library = Library(
    render: string -> string,
    clean: string -> string,
    objectString: Content -> string,
    streamBytes: Content -> seq<byte>)

  const TEXT_PLAIN: string := "text/plain"
  const TEXT_HTML: string := "text/html"
  /** Part.ATTACHMENT */
  const ATTACHMENT: string := "attachment"
  /** The four-character marker put before <br> and <p>: backslash, 'r', backslash, 'n'. */
  const SENTINEL: string := "\\r\\n"

  /** Part.isMimeType on the part's declared base type, ignoring case. */
  predicate IsMimeType(p: Part, mimeType: string)
  {
    EqualsIgnoreCase(p.mimeType, mimeType)
  }

  /** String.valueOf(part.getContent()). */
  function ValueOf(c: Content, lib: Library): string
  {
    match c
    case Text(s) => s
    case _ => lib.objectString(c)
  }

  // ---------------------------------------------------------------------------
  // Trailing line feeds

  function Repeat(s: string, n: nat): string
  {
    if n == 0 then "" else s + Repeat(s, n - 1)
  }

  /** `s` without the run of "\r\n" it ends with. */
  function StripTrailingLineFeeds(s: string): (r: string)
    ensures !EndsWith(r, LINE_FEED)
    ensures exists n :: s == r + Repeat(LINE_FEED, n)
    decreases |s|
  {
    if EndsWith(s, LINE_FEED) then
      var r := StripTrailingLineFeeds(s[..|s| - 2]);
      var n: nat :| s[..|s| - 2] == r + Repeat(LINE_FEED, n);
      assert s == r + Repeat(LINE_FEED, n + 1) by {
        assert s == s[..|s| - 2] + LINE_FEED;
        RepeatSnoc(LINE_FEED, n);
      }
      r
    else
      assert s == s + Repeat(LINE_FEED, 0);
      s
  }

  lemma {:induction false} RepeatSnoc(s: string, n: nat)
    ensures Repeat(s, n + 1) == Repeat(s, n) + s
  {
    if n > 0 {
      RepeatSnoc(s, n - 1);
    }
  }

  /** removeLastLineFeeds: chomps while the string ends with "\r\n" (EmailUtils.java:76-81). */
  method RemoveLastLineFeeds(contentStr: string) returns (r: string)
    ensures r == StripTrailingLineFeeds(contentStr)
  {
    r := contentStr;
    while EndsWith(r, LINE_FEED)
      invariant StripTrailingLineFeeds(r) == StripTrailingLineFeeds(contentStr)
      decreases |r|
    {
      r := Chomp(r);
    }
  }

  /** Stripping the trailing line feeds a second time changes nothing. */
  lemma StripTrailingLineFeedsIdempotent(s: string)
    ensures StripTrailingLineFeeds(StripTrailingLineFeeds(s)) == StripTrailingLineFeeds(s)
  {
  }

  /** Only "\r\n" pairs are stripped: a string that does not end with one is returned unchanged. */
  lemma StripTrailingLineFeedsKeepsOthers(s: string)
    requires !EndsWith(s, LINE_FEED)
    ensures StripTrailingLineFeeds(s) == s
  {
  }

  // ---------------------------------------------------------------------------
  // HTML string steps

  /** The characters Java's `\R` matches (it also matches "\r\n", a pair of them). */
  predicate IsLineTerminator(c: char)
  {
    c == '\n' || c == '\U{000B}' || c == '\U{000C}' || c == '\r' ||
    c == '\U{0085}' || c == '\U{2028}' || c == '\U{2029}'
  }

  /** replaceAll("\\R", ""): every line terminator is dropped, every other character kept in order. */
  function RemoveLineTerminators(s: string): (r: string)
    ensures forall i :: 0 <= i < |r| ==> !IsLineTerminator(r[i])
    ensures (forall i :: 0 <= i < |s| ==> !IsLineTerminator(s[i])) ==> r == s
  {
    if s == [] then ""
    else
      var init, c := s[..|s| - 1], s[|s| - 1];
      RemoveLineTerminators(init) + (if IsLineTerminator(c) then "" else [c])
  }

  /** One character: a line terminator is replaced by nothing, any other character is kept. */
  lemma RemoveLineTerminatorsChar(c: char)
    ensures RemoveLineTerminators([c]) == (if IsLineTerminator(c) then "" else [c])
  {
    assert [c][..0] == "";
  }

  /** Removal works piece by piece: it distributes over concatenation. */
  lemma {:induction false} RemoveLineTerminatorsAppend(a: string, b: string)
    ensures RemoveLineTerminators(a + b) == RemoveLineTerminators(a) + RemoveLineTerminators(b)
    decreases |b|
  {
    if b != [] {
      var ab, init, c := a + b, b[..|b| - 1], b[|b| - 1];
      var tail := if IsLineTerminator(c) then "" else [c];
      assert ab[..|ab| - 1] == a + init && ab[|ab| - 1] == c;
      assert RemoveLineTerminators(ab) == RemoveLineTerminators(a + init) + tail;
      assert RemoveLineTerminators(b) == RemoveLineTerminators(init) + tail;
      RemoveLineTerminatorsAppend(a, init);
    } else {
      assert a + b == a;
    }
  }

  predicate StartsWithSentinel(s: string)
  {
    |s| >= 4 && s[..4] == SENTINEL
  }

  /** replaceAll of the sentinel by "\r\n", scanning left to right as the regex matcher does (EmailUtils.java:94). */
  function ReplaceSentinels(s: string): string
    decreases |s|
  {
    if |s| < 4 then s
    else if StartsWithSentinel(s) then LINE_FEED + ReplaceSentinels(s[4..])
    else [s[0]] + ReplaceSentinels(s[1..])
  }

  /** The inverse step: every "\r\n" back to the sentinel. */
  function RestoreSentinels(s: string): string
    decreases |s|
  {
    if |s| < 2 then s
    else if s[..2] == LINE_FEED then SENTINEL + RestoreSentinels(s[2..])
    else [s[0]] + RestoreSentinels(s[1..])
  }

  lemma ReplaceSentinelsHead(s: string)
    requires s != []
    ensures ReplaceSentinels(s) != []
    ensures StartsWithSentinel(s) ==> ReplaceSentinels(s) == LINE_FEED + ReplaceSentinels(s[4..])
    ensures !StartsWithSentinel(s) ==> ReplaceSentinels(s) == [s[0]] + ReplaceSentinels(s[1..])
  {
    if |s| < 4 {
      assert s == [s[0]] + s[1..];
    }
  }

  /** An occurrence past a prefix is an occurrence in the rest. */
  lemma OccursAtShift(t: string, a: string, b: string, i: int)
    requires i >= |a|
    ensures OccursAt(t, a + b, i) <==> OccursAt(t, b, i - |a|)
  {
    if i + |t| <= |a + b| {
      assert (a + b)[i..i + |t|] == b[i - |a|..i - |a| + |t|];
    }
  }

  /** A string that does not start with the sentinel does not start with one after the replacement. */
  lemma NoSentinelAtHead(s: string)
    requires s != [] && !StartsWithSentinel(s)
    ensures !OccursAt(SENTINEL, ReplaceSentinels(s), 0)
  {
    var r, t := ReplaceSentinels(s), ReplaceSentinels(s[1..]);
    ReplaceSentinelsHead(s);
    if |r| >= 4 && r[0] == '\\' && r[1] == 'r' && r[2] == '\\' {
      assert |s| >= 4 && r == [s[0]] + t;
      ReplaceSentinelsHead(s[1..]);
      ReplaceSentinelsHead(s[2..]);
      ReplaceSentinelsHead(s[3..]);
      var u := ReplaceSentinels(s[2..]);
      assert s[1..][1..] == s[2..] && t == [s[1]] + u;
      var w := ReplaceSentinels(s[3..]);
      assert s[2..][1..] == s[3..] && u == [s[2]] + w;
      assert r[3] == w[0];
      assert r[3] == CR || r[3] == s[3];
      assert r[..4] != SENTINEL;
    }
  }

  /** No sentinel survives the replacement. */
  lemma {:induction false} NoSentinelLeft(s: string)
    ensures forall i :: !OccursAt(SENTINEL, ReplaceSentinels(s), i)
    decreases |s|
  {
    if s != [] {
      var r := ReplaceSentinels(s);
      ReplaceSentinelsHead(s);
      if StartsWithSentinel(s) {
        var t := ReplaceSentinels(s[4..]);
        NoSentinelLeft(s[4..]);
        assert r == LINE_FEED + t;
        forall i ensures !OccursAt(SENTINEL, r, i) {
          if i >= 2 {
            OccursAtShift(SENTINEL, LINE_FEED, t, i);
          } else if 0 <= i && i + 4 <= |r| {
            assert r[i..i + 4][0] == r[i];
          }
        }
      } else {
        var t := ReplaceSentinels(s[1..]);
        NoSentinelLeft(s[1..]);
        NoSentinelAtHead(s);
        forall i ensures !OccursAt(SENTINEL, r, i) {
          if i >= 1 {
            OccursAtShift(SENTINEL, [s[0]], t, i);
          }
        }
      }
    }
  }

  /** A string in which the sentinel occurs nowhere. */
  ghost predicate SentinelFree(a: string)
  {
    forall i :: !OccursAt(SENTINEL, a, i)
  }

  /** The tail of a sentinel-free string is sentinel-free. */
  lemma SentinelFreeTail(a: string)
    requires a != [] && SentinelFree(a)
    ensures SentinelFree(a[1..])
  {
    assert a == [a[0]] + a[1..];
    forall i ensures !OccursAt(SENTINEL, a[1..], i) {
      if 0 <= i {
        OccursAtShift(SENTINEL, [a[0]], a[1..], i + 1);
      }
    }
  }

  /** Text without a sentinel is left as it is. */
  lemma {:induction false} ReplaceSentinelsIdentity(a: string)
    requires SentinelFree(a)
    ensures ReplaceSentinels(a) == a
    decreases |a|
  {
    if |a| >= 4 {
      assert !OccursAt(SENTINEL, a, 0);
      SentinelFreeTail(a);
      ReplaceSentinelsIdentity(a[1..]);
      assert a == [a[0]] + a[1..];
    }
  }

  /** A non-empty sentinel-free prefix keeps a sentinel after it from starting the string. */
  lemma NoSentinelBeforePrefixEnd(a: string, b: string)
    requires a != [] && SentinelFree(a)
    ensures !StartsWithSentinel(a + SENTINEL + b)
  {
    var s := a + SENTINEL + b;
    if |a| >= 4 {
      assert !OccursAt(SENTINEL, a, 0);
      assert s[..4] == a[..4];
    } else {
      assert s[|a|] == '\\';
      if |a| <= 2 {
        assert s[|a| + 1] == 'r';
      }
    }
  }

  /** The first sentinel, after text free of one, becomes "\r\n"; the scan then goes on after it. */
  lemma {:induction false} ReplaceSentinelsFirst(a: string, b: string)
    requires SentinelFree(a)
    ensures ReplaceSentinels(a + SENTINEL + b) == a + LINE_FEED + ReplaceSentinels(b)
    decreases |a|
  {
    var s := a + SENTINEL + b;
    if a == [] {
      assert s == SENTINEL + b && s[..4] == SENTINEL && s[4..] == b;
    } else {
      NoSentinelBeforePrefixEnd(a, b);
      SentinelFreeTail(a);
      ReplaceSentinelsFirst(a[1..], b);
      assert s[1..] == a[1..] + SENTINEL + b;
      calc {
        ReplaceSentinels(s);
        [s[0]] + ReplaceSentinels(s[1..]);
        [a[0]] + (a[1..] + LINE_FEED + ReplaceSentinels(b));
        { assert a == [a[0]] + a[1..]; }
        a + LINE_FEED + ReplaceSentinels(b);
      }
    }
  }

  lemma {:induction false} RestoreWithoutCarriageReturn(s: string)
    requires CR !in s
    ensures RestoreSentinels(s) == s
    decreases |s|
  {
    if |s| >= 2 {
      assert s[0] in s;
      assert CR !in s[1..] by {
        assert forall c :: c in s[1..] ==> c in s;
      }
      RestoreWithoutCarriageReturn(s[1..]);
    }
  }

  /**
   * Nothing is lost by the replacement: on a string without carriage returns, turning every
   * "\r\n" back into the sentinel gives the original string.
   */
  lemma {:induction false} ReplaceSentinelsRoundTrip(s: string)
    requires CR !in s
    ensures RestoreSentinels(ReplaceSentinels(s)) == s
    decreases |s|
  {
    if |s| < 4 {
      RestoreWithoutCarriageReturn(s);
    } else {
      assert CR !in s[1..] && CR !in s[4..] by {
        assert forall c :: c in s[1..] ==> c in s;
        assert forall c :: c in s[4..] ==> c in s;
      }
      if StartsWithSentinel(s) {
        ReplaceSentinelsRoundTrip(s[4..]);
        var t := ReplaceSentinels(s[4..]);
        assert (LINE_FEED + t)[..2] == LINE_FEED && (LINE_FEED + t)[2..] == t;
        assert s == SENTINEL + s[4..];
      } else {
        ReplaceSentinelsRoundTrip(s[1..]);
        var t := ReplaceSentinels(s[1..]);
        assert s[0] in s;
        var u := [s[0]] + t;
        assert u[1..] == t;
        assert s[0] != CR;
        if |u| >= 2 {
          assert u[..2][0] == s[0];
        }
        assert s == [s[0]] + s[1..];
      }
    }
  }

  /** getContentFromHtmlPart (EmailUtils.java:83-96). */
  function ContentFromHtmlPart(part: Part, lib: Library): string
  {
    var withoutLineBreaks := RemoveLineTerminators(ValueOf(part.content, lib));
    lib.clean(ReplaceSentinels(lib.render(withoutLineBreaks)))
  }

  /** What the parser is handed holds no line terminator, whatever the part held. */
  lemma HtmlParserInputHasNoLineTerminators(part: Part, lib: Library)
    ensures forall i :: 0 <= i < |RemoveLineTerminators(ValueOf(part.content, lib))| ==>
              !IsLineTerminator(RemoveLineTerminators(ValueOf(part.content, lib))[i])
  {
  }

  // ---------------------------------------------------------------------------
  // Body text

  /** The fragments a part yields, in document order, before duplicates are suppressed. */
  function Texts(p: Part, lib: Library): seq<string>
    decreases p
  {
    if IsMimeType(p, TEXT_PLAIN) then [ValueOf(p.content, lib)]
    else if IsMimeType(p, TEXT_HTML) then [ContentFromHtmlPart(p, lib)]
    else match p.content
      case Multi(children) => TextsOf(children, lib)
      case _ => []
  }

  function TextsOf(ps: seq<Part>, lib: Library): seq<string>
    decreases ps
  {
    if ps == [] then [] else TextsOf(ps[..|ps| - 1], lib) + Texts(ps[|ps| - 1], lib)
  }

  /** The insertion-ordered set of distinct fragments getContent collects. */
  function Fragments(message: Part, lib: Library): seq<string>
  {
    InsertAll([], Texts(message, lib))
  }

  /** The fragments one after the other, nothing between them. */
  function Concat(xs: seq<string>): string
  {
    if xs == [] then "" else Concat(xs[..|xs| - 1]) + xs[|xs| - 1]
  }

  /** What getContent's StringBuilder holds: nothing, or "\r\n" followed by every fragment. */
  function Render(fragments: seq<string>): string
  {
    if fragments == [] then "" else LINE_FEED + Concat(fragments)
  }

  /** One more fragment: the leading "\r\n" comes with the first one only. */
  lemma RenderSnoc(fragments: seq<string>, f: string)
    ensures Render(fragments + [f]) == (if fragments == [] then LINE_FEED else Render(fragments)) + f
  {
    var g := fragments + [f];
    assert g[..|g| - 1] == fragments && g[|g| - 1] == f;
    assert Concat(g) == Concat(fragments) + f;
    if fragments == [] {
      assert Concat(fragments) == "";
    }
  }

  /** getContent (EmailUtils.java:42-57). */
  method GetContent(message: Part, lib: Library) returns (r: string)
    ensures r == Render(Fragments(message, lib))
  {
    var stringParts := new LinkedSet<string>();
    GetContentFromPart(stringParts, message, lib);
    r := AppendFragments(stringParts.items);
  }

  /** The StringBuilder loop of getContent (EmailUtils.java:46-56). */
  method AppendFragments(items: seq<string>) returns (r: string)
    ensures r == Render(items)
  {
    var sb := "";
    for i := 0 to |items|
      invariant sb == Render(items[..i])
      invariant i > 0 ==> |sb| >= |LINE_FEED|
    {
      var stringPart := items[i];
      if |sb| == 0 {
        sb := sb + LINE_FEED;
      }
      sb := sb + stringPart;
      assert items[..i + 1] == items[..i] + [stringPart];
      RenderSnoc(items[..i], stringPart);
    }
    assert items[..|items|] == items;
    r := sb;
  }

  /** getContentFromPart (EmailUtils.java:59-74): the result of removeLastLineFeeds is discarded, as at EmailUtils.java:64. */
  method GetContentFromPart(stringParts: LinkedSet<string>, part: Part, lib: Library)
    requires stringParts.Valid()
    modifies stringParts
    ensures stringParts.Valid()
    ensures stringParts.items == InsertAll(old(stringParts.items), Texts(part, lib))
    decreases part
  {
    var content := part.content;
    if IsMimeType(part, TEXT_PLAIN) {
      var contentStr := ValueOf(content, lib);
      var _ := RemoveLastLineFeeds(contentStr);
      InsertAllOne(stringParts.items, contentStr);
      stringParts.Add(contentStr);
    } else if IsMimeType(part, TEXT_HTML) {
      var contentStr := ContentFromHtmlPart(part, lib);
      InsertAllOne(stringParts.items, contentStr);
      stringParts.Add(contentStr);
    } else if content.Multi? {
      GetContentFromMultipart(stringParts, content.parts, lib);
    } else {
      assert Texts(part, lib) == [];
    }
  }

  /** getContentFromMultipart (EmailUtils.java:98-105): the children in index order. */
  method GetContentFromMultipart(stringParts: LinkedSet<string>, multipart: seq<Part>, lib: Library)
    requires stringParts.Valid()
    modifies stringParts
    ensures stringParts.Valid()
    ensures stringParts.items == InsertAll(old(stringParts.items), TextsOf(multipart, lib))
    decreases multipart
  {
    for i := 0 to |multipart|
      invariant stringParts.Valid()
      invariant stringParts.items == InsertAll(old(stringParts.items), TextsOf(multipart[..i], lib))
    {
      GetContentFromPart(stringParts, multipart[i], lib);
      assert multipart[..i + 1][..i] == multipart[..i];
      InsertAllAppend(old(stringParts.items), TextsOf(multipart[..i], lib), Texts(multipart[i], lib));
    }
    assert multipart[..|multipart|] == multipart;
  }

  /** Children contribute in index order: the fragments of a concatenation are concatenated. */
  lemma {:induction false} TextsOfConcat(ps: seq<Part>, qs: seq<Part>, lib: Library)
    ensures TextsOf(ps + qs, lib) == TextsOf(ps, lib) + TextsOf(qs, lib)
    decreases |qs|
  {
    if qs == [] {
      assert ps + qs == ps;
    } else {
      var pq := ps + qs;
      assert pq[..|pq| - 1] == ps + qs[..|qs| - 1] && pq[|pq| - 1] == qs[|qs| - 1];
      TextsOfConcat(ps, qs[..|qs| - 1], lib);
    }
  }

  /**
   * The collected fragments are distinct, they are exactly the fragments of the walk, and
   * each stands where its first occurrence in document order puts it.
   */
  lemma FragmentsFirstSeen(message: Part, lib: Library)
    ensures var f, t := Fragments(message, lib), Texts(message, lib);
      && NoDup(f)
      && (forall x :: x in f <==> x in t)
      && forall i, j :: 0 <= i < j < |f| ==> FirstIndex(t, f[i]) < FirstIndex(t, f[j])
  {
    InsertAllFirstSeenOrder(Texts(message, lib));
  }

  /**
   * A further child of a multipart message whose fragments all occur earlier in the message
   * changes neither the collected fragments nor the rendered body.
   */
  lemma RepeatedFragmentIgnored(message: Part, p: Part, lib: Library)
    requires message.content.Multi?
    requires !IsMimeType(message, TEXT_PLAIN) && !IsMimeType(message, TEXT_HTML)
    requires forall k :: 0 <= k < |Texts(p, lib)| ==> Texts(p, lib)[k] in Texts(message, lib)
    ensures var longer := message.(content := Multi(message.content.parts + [p]));
      && Fragments(longer, lib) == Fragments(message, lib)
      && Render(Fragments(longer, lib)) == Render(Fragments(message, lib))
  {
    var children := message.content.parts;
    var longer := message.(content := Multi(children + [p]));
    var ts, more := TextsOf(children, lib), Texts(p, lib);
    assert (children + [p])[..|children|] == children;
    assert Texts(longer, lib) == ts + more;
    InsertAllAppend([], ts, more);
    forall k | 0 <= k < |more|
      ensures more[k] in InsertAll([], ts)
    {
      InsertAllMember([], ts, more[k]);
    }
    InsertAllKnown(InsertAll([], ts), more);
  }

  /**
   * A part declared text/plain, in any letter case, yields its content unchanged, trailing
   * "\r\n" included, and is never walked into even when its content is a multipart.
   */
  lemma PlainTextVerbatim(mimeType: string, disposition: Option<string>, fileName: Option<string>, content: Content, lib: Library)
    requires EqualsIgnoreCase(mimeType, TEXT_PLAIN)
    ensures Render(Fragments(Part(mimeType, disposition, fileName, content), lib)) == LINE_FEED + ValueOf(content, lib)
  {
    var p, v := Part(mimeType, disposition, fileName, content), ValueOf(content, lib);
    assert IsMimeType(p, TEXT_PLAIN);
    assert Texts(p, lib) == [v];
    InsertAllOne([], v);
    assert Fragments(p, lib) == [v];
    assert [v][..0] == [];
    assert Concat([v]) == v;
  }

  /** A part that is neither text nor HTML and holds no multipart yields nothing. */
  lemma OtherPartsSkipped(p: Part, lib: Library)
    requires !IsMimeType(p, TEXT_PLAIN) && !IsMimeType(p, TEXT_HTML) && !p.content.Multi?
    ensures Render(Fragments(p, lib)) == ""
  {
  }

  /** Two plain leaves with the same text inside a multipart: the text appears once. */
  lemma DuplicateLeavesCollectedOnce(s: string, lib: Library)
    ensures var leaf := Part(TEXT_PLAIN, None, None, Text(s));
      Render(Fragments(Part("multipart/mixed", None, None, Multi([leaf, leaf])), lib)) == LINE_FEED + s
  {
    var leaf := Part(TEXT_PLAIN, None, None, Text(s));
    assert !IsMimeType(Part("multipart/mixed", None, None, Multi([leaf, leaf])), TEXT_PLAIN);
    assert IsMimeType(leaf, TEXT_PLAIN);
    assert Texts(leaf, lib) == [s];
    assert [leaf, leaf][..1] == [leaf] && [leaf][..0] == [];
    assert TextsOf([leaf], lib) == [s];
    var root := Part("multipart/mixed", None, None, Multi([leaf, leaf]));
    assert !IsMimeType(root, TEXT_HTML);
    assert TextsOf([leaf, leaf], lib) == [s, s];
    assert Texts(root, lib) == [s] + [s];
    assert [s][..0] == [];
    InsertAllAppend([], [s], [s]);
    InsertAllOne([], s);
    InsertAllOne([s], s);
    assert Fragments(root, lib) == [s];
    assert Concat([s]) == s;
  }

  // ---------------------------------------------------------------------------
  // Attachments

  /** The test of EmailUtils.java:128: disposition "attachment" ignoring case, and a non-empty file name. */
  predicate IsAttachment(p: Part)
  {
    p.disposition.Some? && EqualsIgnoreCase(ATTACHMENT, p.disposition.value) && IsNotEmpty(p.fileName)
  }

  /** The bytes read from Part.getInputStream. */
  function InputStreamBytes(c: Content, lib: Library): seq<byte>
  {
    match c
    case Bytes(b) => b
    case _ => lib.streamBytes(c)
  }

  /** The (file name, bytes) puts the walk makes, in document order. */
  function AttachmentEntries(p: Part, lib: Library): seq<(string, seq<byte>)>
    decreases p
  {
    if IsAttachment(p) then [(p.fileName.value, InputStreamBytes(p.content, lib))]
    else match p.content
      case Multi(children) => AttachmentEntriesOf(children, lib)
      case _ => []
  }

  function AttachmentEntriesOf(ps: seq<Part>, lib: Library): seq<(string, seq<byte>)>
    decreases ps
  {
    if ps == [] then [] else AttachmentEntriesOf(ps[..|ps| - 1], lib) + AttachmentEntries(ps[|ps| - 1], lib)
  }

  /** getAttachments (EmailUtils.java:107-113). */
  method GetAttachments(message: Part, lib: Library) returns (attachments: LinkedMap<string, seq<byte>>)
    ensures fresh(attachments) && attachments.Valid()
    ensures attachments.Model() == PutAll(OrderedMap([], map[]), AttachmentEntries(message, lib))
  {
    attachments := new LinkedMap<string, seq<byte>>();
    GetAttachmentsFromPart(attachments, message, lib);
  }

  /** getAttachmentsFromMultipart (EmailUtils.java:115-122). */
  method GetAttachmentsFromMultipart(attachments: LinkedMap<string, seq<byte>>, multipart: seq<Part>, lib: Library)
    requires attachments.Valid()
    modifies attachments
    ensures attachments.Valid()
    ensures attachments.Model() == PutAll(old(attachments.Model()), AttachmentEntriesOf(multipart, lib))
    decreases multipart
  {
    for i := 0 to |multipart|
      invariant attachments.Valid()
      invariant attachments.Model() == PutAll(old(attachments.Model()), AttachmentEntriesOf(multipart[..i], lib))
    {
      GetAttachmentsFromPart(attachments, multipart[i], lib);
      assert multipart[..i + 1][..i] == multipart[..i];
      PutAllAppend(old(attachments.Model()), AttachmentEntriesOf(multipart[..i], lib), AttachmentEntries(multipart[i], lib));
    }
    assert multipart[..|multipart|] == multipart;
  }

  /** getAttachmentsFromPart (EmailUtils.java:124-143): the attachment test comes before recursion. */
  method GetAttachmentsFromPart(attachments: LinkedMap<string, seq<byte>>, part: Part, lib: Library)
    requires attachments.Valid()
    modifies attachments
    ensures attachments.Valid()
    ensures attachments.Model() == PutAll(old(attachments.Model()), AttachmentEntries(part, lib))
    decreases part
  {
    var content := part.content;
    var fileName := part.fileName;
    if part.disposition.Some? && EqualsIgnoreCase(ATTACHMENT, part.disposition.value) && IsNotEmpty(fileName) {
      var bytes := InputStreamBytes(content, lib);
      attachments.Put(fileName.value, bytes);
      assert [(fileName.value, bytes)][1..] == [];
    } else if content.Multi? {
      GetAttachmentsFromMultipart(attachments, content.parts, lib);
    }
  }

  /** Every entry of the walk is keyed by a non-empty file name. */
  lemma {:induction false} AttachmentKeysNonEmpty(p: Part, lib: Library)
    ensures forall e :: e in AttachmentEntries(p, lib) ==> e.0 != ""
    decreases p
  {
    if !IsAttachment(p) && p.content.Multi? {
      AttachmentKeysNonEmptyOf(p.content.parts, lib);
    }
  }

  lemma {:induction false} AttachmentKeysNonEmptyOf(ps: seq<Part>, lib: Library)
    ensures forall e :: e in AttachmentEntriesOf(ps, lib) ==> e.0 != ""
    decreases ps
  {
    if ps != [] {
      AttachmentKeysNonEmptyOf(ps[..|ps| - 1], lib);
      AttachmentKeysNonEmpty(ps[|ps| - 1], lib);
    }
  }

  /**
   * The map getAttachments returns: every key is a non-empty file name, keys stand in the
   * order of their first put, and a repeated file name holds the bytes of its last part.
   */
  lemma AttachmentsMap(message: Part, lib: Library)
    ensures var es := AttachmentEntries(message, lib);
      var m := PutAll(OrderedMap([], map[]), es);
      && m.Valid()
      && m.keys == InsertAll([], KeysOf(es))
      && (forall k :: k in m.values ==> k != "" && k in KeysOf(es) && m.values[k] == LastValue(es, k))
  {
    var es := AttachmentEntries(message, lib);
    var empty: OrderedMap<string, seq<byte>> := OrderedMap([], map[]);
    PutAllShape(empty, es);
    AttachmentKeysNonEmpty(message, lib);
    forall k | k in PutAll(empty, es).values
      ensures k != "" && k in KeysOf(es) && PutAll(empty, es).values[k] == LastValue(es, k)
    {
      PutAllValues(empty, es, k);
      var i :| 0 <= i < |es| && KeysOf(es)[i] == k;
      assert es[i] in es;
    }
  }

  /** An attachment part is stored whole: a multipart under it is not walked into. */
  lemma AttachmentNotWalkedInto(p: Part, lib: Library)
    requires IsAttachment(p)
    ensures var m := PutAll(OrderedMap([], map[]), AttachmentEntries(p, lib));
      && m.keys == [p.fileName.value]
      && m.values == map[p.fileName.value := InputStreamBytes(p.content, lib)]
  {
  }

  /** Two attachments with the same file name: one entry, holding the later part's bytes. */
  lemma SameFileNameKeepsLaterBytes(name: string, first: seq<byte>, second: seq<byte>, lib: Library)
    requires name != ""
    ensures var a := Part("application/octet-stream", Some(ATTACHMENT), Some(name), Bytes(first));
      var b := Part("application/octet-stream", Some(ATTACHMENT), Some(name), Bytes(second));
      var m := PutAll(OrderedMap([], map[]), AttachmentEntries(Part("multipart/mixed", None, None, Multi([a, b])), lib));
      m.keys == [name] && m.values == map[name := second]
  {
    var a := Part("application/octet-stream", Some(ATTACHMENT), Some(name), Bytes(first));
    var b := Part("application/octet-stream", Some(ATTACHMENT), Some(name), Bytes(second));
    assert EqualsIgnoreCase(ATTACHMENT, ATTACHMENT);
    assert IsAttachment(a) && IsAttachment(b);
    assert [a, b][..1] == [a] && [a][..0] == [];
    assert AttachmentEntriesOf([a], lib) == [(name, first)];
    assert AttachmentEntries(b, lib) == [(name, second)];
    var es := AttachmentEntriesOf([a, b], lib);
    assert es == [(name, first), (name, second)];
    var empty: OrderedMap<string, seq<byte>> := OrderedMap([], map[]);
    PutAllAppend(empty, [(name, first)], [(name, second)]);
    assert [(name, first)][1..] == [] && [(name, second)][1..] == [];
    assert [(name, first)] + [(name, second)] == es;
  }
}
