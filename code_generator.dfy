/** The pure text handling of `utils/code_generator.py`: pulling the body
    of a fenced block out of a completion reply, and rendering the checks
    and attachments lists that go into the prompt. The completion client
    itself is an opaque function from a prompt to a reply or an error. */
module CodeGenerator {
  import opened Wrappers
  import opened Text

  const Fence := "```"

  /** `Fence + lang` occurring means a bare fence occurs at the same place. */
  lemma TagImpliesFence(s: string, lang: string)
    requires Contains(s, Fence + lang)
    ensures Contains(s, Fence)
  {
    var i := FindFirst(s, Fence + lang).value;
    PrefixOccurs(s, Fence, lang, i);
    ContainsAt(s, Fence, i);
  }

  /** The extraction written at lines 44-47 (language "html") and 83-86
      (language "markdown"): the first block tagged with the language, else the
      first generic block, stripped; a reply without any fence unchanged. */
  function ExtractFenced(reply: string, lang: string): (r: string)
    ensures !Contains(reply, Fence) ==> r == reply
  {
    var tag := Fence + lang;
    if Contains(reply, tag) then
      TagImpliesFence(reply, lang);
      BlockAfter(reply, tag)
    else if Contains(reply, Fence) then
      BlockAfter(reply, Fence)
    else
      reply
  }

  /** `reply.split(opener)[1].split("```")[0].strip()`. */
  function BlockAfter(reply: string, opener: string): string
    requires opener != [] && Contains(reply, opener)
  {
    Strip(BlockText(reply, opener))
  }

  /** `reply.split(opener)[1].split("```")[0]`: the text after the first
      opener, up to the next fence. */
  function BlockText(reply: string, opener: string): string
    requires opener != [] && Contains(reply, opener)
  {
    Split(Split(reply, opener)[1], Fence)[0]
  }

  /** A slice of an occurrence is itself an occurrence, further along. */
  lemma InfixOfOccurrence(s: string, t: string, off: nat, a: nat, b: nat)
    requires OccursAt(s, t, off) && a <= b <= |t|
    ensures OccursAt(s, t[a..b], off + a)
  {
    forall j | 0 <= j < b - a ensures t[a..b][j] == s[off + a + j] {
      assert t[a + j] == s[off..off + |t|][a + j];
    }
  }

  /** The second piece of `reply.split(sep)` sits right after the first
      separator. */
  lemma SecondPieceAt(reply: string, sep: string)
    requires sep != [] && Contains(reply, sep)
    ensures |Split(reply, sep)| >= 2
    ensures OccursAt(reply, Split(reply, sep)[1], FindFirst(reply, sep).value + |sep|)
  {
    var i := FindFirst(reply, sep).value;
    var rest := reply[i + |sep|..];
    SplitStep(reply, sep, i);
    assert Split(reply, sep)[1] == Split(rest, sep)[0] == UpTo(rest, sep);
    PrefixOfSuffixOccurs(reply, i + |sep|, UpTo(rest, sep));
  }

  /** The piece `reply.split(opener)[1].split("```")[0]` sits in the reply
      right after the first `opener`, and holds no fence. */
  lemma BlockBody(reply: string, opener: string)
    requires opener != [] && Contains(reply, opener)
    ensures !Contains(BlockText(reply, opener), Fence)
    ensures OccursAt(reply, BlockText(reply, opener), FindFirst(reply, opener).value + |opener|)
  {
    SecondPieceAt(reply, opener);
    var piece := Split(reply, opener)[1];
    var body := Split(piece, Fence)[0];
    UpToLacks(piece, Fence);
    InfixOfOccurrence(reply, piece, FindFirst(reply, opener).value + |opener|, 0, |body|);
  }

  /** Stripping a fence-free occurrence keeps it fence-free and inside
      the reply. */
  lemma StripOfBody(reply: string, body: string, off: nat)
    requires !Contains(body, Fence) && OccursAt(reply, body, off)
    ensures !Contains(Strip(body), Fence) && Contains(reply, Strip(body))
  {
    var b := StripBounds(body);
    SliceLacks(body, b.0, b.1, Fence);
    InfixOfOccurrence(reply, body, off, b.0, b.1);
    ContainsAt(reply, body[b.0..b.1], off + b.0);
  }

  /** The block after an opener holds no fence and is a substring of the
      reply. */
  lemma BlockAfterIsClean(reply: string, opener: string)
    requires opener != [] && Contains(reply, opener)
    ensures !Contains(BlockAfter(reply, opener), Fence)
    ensures Contains(reply, BlockAfter(reply, opener))
  {
    BlockBody(reply, opener);
    StripOfBody(reply, BlockText(reply, opener), FindFirst(reply, opener).value + |opener|);
  }

  /** Whenever the reply is fenced, the extracted text holds no fence and
      is a substring of the reply. */
  lemma ExtractFencedIsClean(reply: string, lang: string)
    requires Contains(reply, Fence)
    ensures !Contains(ExtractFenced(reply, lang), Fence)
    ensures Contains(reply, ExtractFenced(reply, lang))
  {
    if Contains(reply, Fence + lang) {
      BlockAfterIsClean(reply, Fence + lang);
    } else {
      BlockAfterIsClean(reply, Fence);
    }
  }

  /** No tagged opener starts inside the first fence of `rest`, past its
      first backtick, as in "````html": then the first fence is still the
      first fence once `rest` is cut at the next tagged opener. */
  predicate ClosedBeforeNextTag(rest: string, tag: string) {
    Contains(rest, Fence) ==>
      forall j: nat :: FindFirst(rest, Fence).value < j < FindFirst(rest, Fence).value + |Fence|
                       ==> !OccursAt(rest, tag, j)
  }

  /** A text without a second tagged opener satisfies the condition. */
  lemma SingleTagIsClosed(rest: string, tag: string)
    requires !Contains(rest, tag)
    ensures ClosedBeforeNextTag(rest, tag)
  {
    forall j: nat | OccursAt(rest, tag, j) ensures false {
      ContainsAt(rest, tag, j);
    }
  }

  /** Cutting at the next tagged opener and then at the first fence is
      cutting at the first fence. */
  lemma FirstFenceBeforeTag(rest: string, lang: string)
    requires ClosedBeforeNextTag(rest, Fence + lang)
    ensures UpTo(UpTo(rest, Fence + lang), Fence) == UpTo(rest, Fence)
  {
    var tag := Fence + lang;
    if Contains(rest, tag) {
      var t := FindFirst(rest, tag).value;
      PrefixOccurs(rest, Fence, lang, t);
      ContainsAt(rest, Fence, t);
      var f := FindFirst(rest, Fence).value;
      var piece := rest[..t];
      assert UpTo(rest, tag) == piece;
      if t == f {
        NoneBeforeFirst(rest, Fence, 0, f);
        assert rest[0..f] == piece;
      } else {
        assert f + |Fence| <= t;
        assert OccursAt(piece, Fence, f) by { assert piece[f..f + |Fence|] == rest[f..f + |Fence|]; }
        ContainsAt(piece, Fence, f);
        var g := FindFirst(piece, Fence).value;
        assert rest[0..t] == piece;
        OccursInSlice(rest, 0, t, Fence, g);
        assert g == f;
        assert piece[..f] == rest[..f];
      }
    }
  }

  /** A tagged reply yields the text after the first tagged opener up to
      the next fence, stripped, unless a later tagged opener starts inside
      that fence (`TagInsideClosingFence` shows that case). */
  lemma ExtractTaggedBlock(reply: string, lang: string)
    requires Contains(reply, Fence + lang)
    requires ClosedBeforeNextTag(AfterFirst(reply, Fence + lang), Fence + lang)
    ensures ExtractFenced(reply, lang)
            == Strip(UpTo(AfterFirst(reply, Fence + lang), Fence))
  {
    SplitSecond(reply, Fence + lang);
    FirstFenceBeforeTag(AfterFirst(reply, Fence + lang), lang);
  }

  /** With "````html" right after the block, the split at the second
      opener leaves a backtick of the closing run in the result.

      The example strings are parameters fixed by `requires` rather than
      literals in the calls: applied to a literal, the recursive text
      functions unfold eagerly and the proof becomes far more costly. */
  lemma TagInsideClosingFence(reply: string, tag: string)
    requires reply == "```htmlx````html" && tag == Fence + "html"
    ensures ExtractFenced(reply, "html") == "x`"
    ensures Contains(reply, tag) && Strip(UpTo(AfterFirst(reply, tag), Fence)) == "x"
  {
    var rest := AfterOpener(reply, tag);
    SplitSecond(reply, tag);
    var piece := rest[..2];
    assert UpTo(rest, tag) == piece;
    assert !Contains(piece, Fence);
    StripKeeps(piece);
    RestCutAtFence(rest, tag);
  }

  /** The reply "```htmlx````html" opens with the tag; the rest is "x````html". */
  lemma AfterOpener(reply: string, tag: string) returns (rest: string)
    requires reply == "```htmlx````html" && tag == Fence + "html"
    ensures Contains(reply, tag) && rest == AfterFirst(reply, tag)
    ensures rest == "x````html" && FindFirst(rest, Fence) == Some(1) && FindFirst(rest, tag) == Some(2)
  {
    assert OccursAt(reply, tag, 0) by { assert reply[0..7] == tag; }
    FirstAt(reply, tag, 0);
    rest := reply[7..];
    assert rest == "x````html";
    ClosingRun(rest, tag);
  }

  /** Cut at its first fence and stripped, "x````html" is "x". */
  lemma RestCutAtFence(rest: string, tag: string)
    requires rest == "x````html" && FindFirst(rest, Fence) == Some(1)
    ensures Strip(UpTo(rest, Fence)) == "x"
  {
    assert UpTo(rest, Fence) == rest[..1];
    StripKeeps(rest[..1]);
  }

  /** In "x````html" the first fence is at 1 and the opener at 2. */
  lemma ClosingRun(rest: string, tag: string)
    requires rest == "x````html" && tag == Fence + "html"
    ensures FindFirst(rest, Fence) == Some(1) && FindFirst(rest, tag) == Some(2)
  {
    assert !OccursAt(rest, Fence, 0) by { assert rest[0..3][0] == 'x'; }
    assert OccursAt(rest, Fence, 1) by { assert rest[1..4] == Fence; }
    FirstAt(rest, Fence, 1);
    assert !OccursAt(rest, tag, 0) by { assert rest[0..7][0] == 'x'; }
    assert !OccursAt(rest, tag, 1) by { assert rest[1..8][3] == '`'; }
    assert OccursAt(rest, tag, 2) by { assert rest[2..9] == tag; }
    FirstAt(rest, tag, 2);
  }

  /** A reply with fences but no tagged block yields the text between the
      first and the second fence, stripped; a language tag such as
      "python" right after the opening fence is part of that text. */
  lemma ExtractUntaggedBlock(reply: string, lang: string)
    requires !Contains(reply, Fence + lang) && Contains(reply, Fence)
    ensures ExtractFenced(reply, lang)
            == Strip(UpTo(AfterFirst(reply, Fence), Fence))
  {
    SplitSecond(reply, Fence);
    SplitPieceLacks(reply, Fence, 1);
  }

  /** A block tagged with another language keeps the tag.

      The example strings are parameters fixed by `requires` rather than
      literals in the calls: applied to a literal, the recursive text
      functions unfold eagerly and the proof becomes far more costly. */
  lemma OtherTagIsKept(reply: string, body: string)
    requires body == "python\nx = 1\n" && reply == Fence + body + Fence
    ensures ExtractFenced(reply, "html") == "python\nx = 1"
  {
    LacksCharOf(reply, Fence + "html", 6);
    assert OccursAt(reply, Fence, 0) by { assert reply[0..3] == Fence; }
    FirstAt(reply, Fence, 0);
    var rest := reply[3..];
    assert rest == body + Fence;
    FenceAfterBody(rest, body);
    SplitSecond(reply, Fence);
    assert Split(reply, Fence)[1] == body;
  }

  /** The body "python\nx = 1\n" holds no fence and strips to its first
      twelve characters. */
  lemma FenceAfterBody(rest: string, body: string)
    requires body == "python\nx = 1\n" && rest == body + Fence
    ensures FindFirst(rest, Fence) == Some(|body|) && !Contains(body, Fence)
    ensures Strip(body) == "python\nx = 1"
  {
    forall k: nat | k < |body| ensures !OccursAt(rest, Fence, k) {
      assert rest[k..k + 3][0] == body[k] != '`';
    }
    assert OccursAt(rest, Fence, |body|) by { assert rest[|body|..|body| + 3] == Fence; }
    FirstAt(rest, Fence, |body|);
    LacksCharOf(body, Fence, 0);
    assert StripBounds(body) == (0, |body| - 1);
  }

  /** `['- ' + check for check in checks]`. */
  function Bullets(items: seq<string>): (lines: seq<string>)
    ensures |lines| == |items|
    ensures forall k :: 0 <= k < |items| ==> lines[k] == "- " + items[k]
  {
    seq(|items|, k requires 0 <= k < |items| => "- " + items[k])
  }

  /** The checks block of the prompt, `chr(10).join(...)` at line 20. */
  function RenderChecks(checks: seq<string>): string {
    Join(Bullets(checks), "\n")
  }

  /** A bullet holds a newline only if its item does. */
  lemma BulletLacksNewline(item: string)
    requires !Contains(item, "\n")
    ensures !Contains("- " + item, "\n")
  {
    var b := "- " + item;
    if Contains(b, "\n") {
      var k := FindFirst(b, "\n").value;
      assert b[k] == '\n';
      assert k >= 2;
      assert item[k - 2..k - 1] == b[k..k + 1];
      ContainsAt(item, "\n", k - 2);
      assert false;
    }
  }

  /** The checks block is one "- <check>" line per check, in input order,
      when no check spans lines. */
  lemma ChecksOnePerLine(checks: seq<string>)
    requires |checks| >= 1
    requires forall k :: 0 <= k < |checks| ==> !Contains(checks[k], "\n")
    ensures Split(RenderChecks(checks), "\n") == Bullets(checks)
  {
    forall k | 0 <= k < |checks| ensures !Contains(Bullets(checks)[k], "\n") {
      BulletLacksNewline(checks[k]);
    }
    SplitJoin(Bullets(checks), "\n");
  }

  /** One attachment of the request: a JSON object whose "name" key may be
      missing. */
  datatype Attachment = Attachment(name: Option<string>, content: Option<string>)

  /** `att.get('name', 'unknown')`. */
  function DisplayName(a: Attachment): string {
    a.name.GetOr("unknown")
  }

  function Names(atts: seq<Attachment>): (names: seq<string>)
    ensures |names| == |atts|
    ensures forall k :: 0 <= k < |atts| ==> names[k] == DisplayName(atts[k])
  {
    seq(|atts|, k requires 0 <= k < |atts| => DisplayName(atts[k]))
  }

  const AttachmentsHeader := "\n\nAttachments:\n"

  /** "- <item>\n" for every item, in order. */
  function BulletLines(items: seq<string>): string
    decreases |items|
  {
    if items == [] then ""
    else BulletLines(items[..|items| - 1]) + "- " + items[|items| - 1] + "\n"
  }

  /** What lines 9-13 leave in `attachments_info`. */
  function AttachmentsSection(attachments: Option<seq<Attachment>>): string {
    if attachments.None? || attachments.value == [] then ""
    else AttachmentsHeader + BulletLines(Names(attachments.value))
  }

  /** Lines 9-13: the attachments block, built by appending one line per
      attachment; empty when there are none. */
  method AttachmentsInfo(attachments: Option<seq<Attachment>>) returns (info: string)
    ensures info == AttachmentsSection(attachments)
    ensures info == [] <==> attachments.None? || attachments.value == []
  {
    info := "";
    if attachments.Some? && |attachments.value| > 0 {
      var atts := attachments.value;
      info := AttachmentsHeader;
      var i := 0;
      while i < |atts|
        invariant 0 <= i <= |atts|
        invariant info == AttachmentsHeader + BulletLines(Names(atts[..i]))
      {
        assert Names(atts[..i + 1])[..i] == Names(atts[..i]);
        info := info + "- " + DisplayName(atts[i]) + "\n";
        i := i + 1;
      }
      assert atts[..i] == atts;
    }
  }

  lemma {:induction false} JoinSnoc(xs: seq<string>, y: string, sep: string)
    requires |xs| >= 1
    ensures Join(xs + [y], sep) == Join(xs, sep) + sep + y
    decreases |xs|
  {
    if |xs| == 1 {
      assert (xs + [y])[1..] == [y];
    } else {
      assert (xs + [y])[1..] == xs[1..] + [y];
      JoinSnoc(xs[1..], y, sep);
    }
  }

  /** The attachment lines are the checks rendering applied to the names,
      with a newline after the last one. */
  lemma {:induction false} BulletLinesAreJoin(items: seq<string>)
    requires |items| >= 1
    ensures BulletLines(items) == Join(Bullets(items), "\n") + "\n"
    decreases |items|
  {
    var init := items[..|items| - 1];
    if |init| >= 1 {
      BulletLinesAreJoin(init);
      assert Bullets(items) == Bullets(init) + ["- " + items[|items| - 1]];
      JoinSnoc(Bullets(init), "- " + items[|items| - 1], "\n");
    } else {
      assert Bullets(items) == ["- " + items[0]];
    }
  }

  lemma {:induction false} JoinAppend(a: seq<string>, b: seq<string>, sep: string)
    requires |a| >= 1 && |b| >= 1
    ensures Join(a + b, sep) == Join(a, sep) + sep + Join(b, sep)
    decreases |a|
  {
    if |a| == 1 {
      assert (a + b)[1..] == b;
    } else {
      assert (a + b)[1..] == a[1..] + b;
      JoinAppend(a[1..], b, sep);
    }
  }

  /** The attachments block as a newline-join of its lines. */
  lemma AttachmentsSectionAsJoin(atts: seq<Attachment>)
    requires |atts| >= 1
    ensures AttachmentsSection(Some(atts))
            == Join(["", "", "Attachments:"] + (Bullets(Names(atts)) + [""]), "\n")
  {
    var bullets := Bullets(Names(atts));
    var head := ["", "", "Attachments:"];
    var j := Join(bullets, "\n");
    BulletLinesAreJoin(Names(atts));
    assert Join(head, "\n") == "\n\nAttachments:" by {
      assert head[1..] == ["", "Attachments:"];
      assert head[1..][1..] == ["Attachments:"];
    }
    JoinSnoc(bullets, "", "\n");
    JoinAppend(head, bullets + [""], "\n");
    HeaderThenLines(j);
  }

  /** The header followed by the joined lines, regrouped as the join of
      the header lines with the bullet lines and a final "" (the empty
      line after the last newline). */
  lemma HeaderThenLines(j: string)
    ensures AttachmentsHeader + (j + "\n") == "\n\nAttachments:" + "\n" + (j + "\n" + "")
  {
    assert AttachmentsHeader == "\n\nAttachments:" + "\n";
  }

  /** A non-empty attachments block reads, line by line: two blank lines,
      "Attachments:", one "- <name>" line per attachment ("unknown" for a
      nameless one), and the empty text after the final newline. */
  lemma AttachmentsOnePerLine(atts: seq<Attachment>)
    requires |atts| >= 1
    requires forall k :: 0 <= k < |atts| ==> !Contains(DisplayName(atts[k]), "\n")
    ensures Split(AttachmentsSection(Some(atts)), "\n")
            == ["", "", "Attachments:"] + Bullets(Names(atts)) + [""]
  {
    var bullets := Bullets(Names(atts));
    var lines := ["", "", "Attachments:"] + (bullets + [""]);
    AttachmentsSectionAsJoin(atts);
    forall k | 0 <= k < |lines| ensures !Contains(lines[k], "\n") {
      if 3 <= k < 3 + |bullets| {
        BulletLacksNewline(Names(atts)[k - 3]);
      } else {
        LacksCharOf(lines[k], "\n", 0);
      }
    }
    SplitJoin(lines, "\n");
    assert lines == ["", "", "Attachments:"] + bullets + [""];
  }

  /** The variable parts of the code-generation prompt; the fixed wording
      around them is not modelled. */
  datatype AppPrompt = AppPrompt(brief: string, checks: string, attachments: string)

  /** `generate_app_code` (lines 6-49): one completion call, whose failure
      propagates, and a single-entry file map for the extracted page. */
  method GenerateAppCode(complete: AppPrompt -> Result<string, string>, brief: string,
                         checks: seq<string>, attachments: Option<seq<Attachment>>)
    returns (files: Result<map<string, string>, string>)
    ensures var reply := complete(AppPrompt(brief, RenderChecks(checks), AttachmentsSection(attachments)));
      && (files.Success? <==> reply.Success?)
      && (files.Failure? ==> files.error == reply.error)
      && (files.Success? ==> files.value.Keys == {"index.html"}
                             && files.value["index.html"] == ExtractFenced(reply.value, "html"))
  {
    var attachmentsInfo := AttachmentsInfo(attachments);
    var reply := complete(AppPrompt(brief, RenderChecks(checks), attachmentsInfo));
    if reply.Failure? {
      return Failure(reply.error);
    }
    var html := ExtractFenced(reply.value, "html");
    files := Success(map["index.html" := html]);
  }

  /** The variable parts of the README prompt. */
  datatype ReadmePrompt = ReadmePrompt(task: string, brief: string, repoUrl: string, pagesUrl: string)

  /** `generate_readme` (lines 52-88): one completion call and the same
      extraction, preferring a block tagged "markdown". */
  function GenerateReadme(complete: ReadmePrompt -> Result<string, string>, task: string,
                          brief: string, repoUrl: string, pagesUrl: string): (r: Result<string, string>)
    ensures var reply := complete(ReadmePrompt(task, brief, repoUrl, pagesUrl));
      && (r.Success? <==> reply.Success?)
      && (r.Failure? ==> r.error == reply.error)
      && (r.Success? ==> r.value == ExtractFenced(reply.value, "markdown"))
  {
    match complete(ReadmePrompt(task, brief, repoUrl, pagesUrl))
    case Failure(e) => Failure(e)
    case Success(text) => Success(ExtractFenced(text, "markdown"))
  }
}
