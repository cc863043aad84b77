/**
 * The helpers of the post body renderer (src/components/Markdown.tsx): text
 * extraction from a tree of rendered children, the rewrite of local image
 * paths and the choice between video and image, and the choice of how a
 * code element is shown.
 */
module MarkdownView {
  import opened Wrappers
  import opened Text

  /**
   * A value React passes as `children`: a string, an array of children, an
   * element whose `props.children` may be missing, or anything else (a
   * number, a boolean, null), which carries only its truthiness.
   */
  datatype Node =
    | Str(s: string)
    | List(items: seq<Node>)
    | Element(children: Option<Node>)
    | Other(truthy: bool)

  /** JavaScript truthiness: arrays and elements are objects, hence truthy. */
  predicate Truthy(n: Node) {
    match n
    case Str(s) => s != ""
    case List(_) => true
    case Element(_) => true
    case Other(t) => t
  }

  /**
   * `extractTextFromElement`: a string is its own text, an array the
   * concatenation of its items' texts, an element with truthy children the
   * text of those children, and anything else has no text.
   */
  function ExtractText(n: Node): (text: string)
    ensures n.Str? ==> text == n.s
    ensures n.Other? ==> text == ""
    ensures n.Element? && (n.children.None? || !Truthy(n.children.value)) ==> text == ""
    ensures n.List? && |n.items| == 0 ==> text == ""
  {
    match n
    case Str(s) => s
    case List(items) => Join(seq(|items|, i requires 0 <= i < |items| => ExtractText(items[i])), "")
    case Element(Some(c)) => if Truthy(c) then ExtractText(c) else ""
    case Element(None) => ""
    case Other(_) => ""
  }

  /** Joining with the empty separator is concatenation. */
  lemma {:induction false} JoinNothingAppend(a: seq<string>, b: seq<string>)
    ensures Join(a + b, "") == Join(a, "") + Join(b, "")
    decreases |a|
  {
    if |a| == 0 {
      assert a + b == b;
    } else if |a| == 1 {
      if |b| > 0 {
        assert (a + b)[1..] == b;
      }
    } else {
      JoinNothingAppend(a[1..], b);
      assert (a + b)[1..] == a[1..] + b;
    }
  }

  /** The text of an array is the text of its first part followed by the text of the rest. */
  lemma ExtractListAppend(a: seq<Node>, b: seq<Node>)
    ensures ExtractText(List(a + b)) == ExtractText(List(a)) + ExtractText(List(b))
  {
    var ta := seq(|a|, i requires 0 <= i < |a| => ExtractText(a[i]));
    var tb := seq(|b|, i requires 0 <= i < |b| => ExtractText(b[i]));
    var ab := a + b;
    assert seq(|ab|, i requires 0 <= i < |ab| => ExtractText(ab[i])) == ta + tb;
    JoinNothingAppend(ta, tb);
  }

  /** An element's text is its children's text: falsy children have no text anyway. */
  lemma ExtractElement(c: Node)
    ensures ExtractText(Element(Some(c))) == ExtractText(c)
    ensures ExtractText(List([])) == ""
  {
    if !Truthy(c) {
      assert c.Str? || c.Other?;
    }
  }

  /** The text of a mixed array: its strings and its elements' strings, in order. */
  lemma ExtractMixed(a: string, b: string, flag: bool)
    ensures ExtractText(List([Str(a), Element(Some(Str(b))), Other(flag), Element(None)])) == a + b
  {
    var items := [Str(a), Element(Some(Str(b))), Other(flag), Element(None)];
    ExtractListAppend([Str(a)], items[1..]);
    ExtractListAppend([Element(Some(Str(b)))], items[2..]);
    ExtractListAppend([Other(flag)], items[3..]);
    assert [Str(a)] + items[1..] == items;
    assert [Element(Some(Str(b)))] + items[2..] == items[1..];
    assert [Other(flag)] + items[3..] == items[2..];
    ExtractSingle(Str(a));
    ExtractSingle(Element(Some(Str(b))));
    ExtractSingle(Other(flag));
    ExtractSingle(Element(None));
    ExtractElement(Str(b));
  }

  /** A one-item array has the text of its item. */
  lemma ExtractSingle(n: Node)
    ensures ExtractText(List([n])) == ExtractText(n)
  {
    assert seq(1, i requires 0 <= i < 1 => ExtractText([n][i])) == [ExtractText(n)];
  }

  /** The `src` an `img` is shown with: `./images/...` becomes `/images/...`. */
  function LocalImageSrc(src: string): (r: string)
    ensures StartsWith(src, "./images/") ==> r == "/" + src[2..]
    ensures !StartsWith(src, "./images/") ==> r == src
  {
    if StartsWith(src, "./images/") then
      assert src[..2] == "./images/"[..2];
      ReplaceFirst(src, "./", "/")
    else
      src
  }

  /** The rewrite never applies twice. */
  lemma LocalImageSrcIdempotent(src: string)
    ensures LocalImageSrc(LocalImageSrc(src)) == LocalImageSrc(src)
  {
    if StartsWith(src, "./images/") {
      assert LocalImageSrc(src)[0] == '/';
    }
  }

  function IsVideo(src: string): bool {
    EndsWith(src, ".mp4") || EndsWith(src, ".webm") || EndsWith(src, ".mov")
  }

  /** Replacing a prefix shorter than what lies before a suffix keeps the suffix. */
  lemma EndsWithAfterPrefix(s: string, k: nat, prefix: string, suffix: string)
    requires k + |suffix| <= |s|
    ensures EndsWith(prefix + s[k..], suffix) == EndsWith(s, suffix)
  {
    var r := prefix + s[k..];
    assert r[|r| - |suffix|..] == s[|s| - |suffix|..];
  }

  /** The rewrite never turns an image into a video or back. */
  lemma LocalImageKeepsKind(src: string)
    ensures IsVideo(LocalImageSrc(src)) == IsVideo(src)
  {
    if StartsWith(src, "./images/") {
      EndsWithAfterPrefix(src, 2, "/", ".mp4");
      EndsWithAfterPrefix(src, 2, "/", ".webm");
      EndsWithAfterPrefix(src, 2, "/", ".mov");
    }
  }

  datatype Media = Video(src: string) | Picture(src: string, alt: string)

  /** The `img` renderer: nothing without a `src`. */
  function RenderImage(src: Option<string>, alt: Option<string>): (r: Option<Media>)
    ensures r.None? <==> src.None? || src.value == ""
    ensures r.Some? ==> r.value.src == LocalImageSrc(src.value)
    ensures r.Some? ==> (r.value.Video? <==> IsVideo(src.value))
    ensures r.Some? && r.value.Picture? ==> r.value.alt == alt.GetOr("")
  {
    match src
    case None => None
    case Some(s) =>
      if s == "" then None
      else
        var shown := LocalImageSrc(s);
        LocalImageKeepsKind(s);
        if IsVideo(shown) then Some(Video(shown)) else Some(Picture(shown, alt.GetOr("")))
  }

  /** The language of a code block: the class name with its first `language-` removed. */
  function Language(className: string): (lang: string)
    ensures StartsWith(className, "language-") ==> lang == className[9..]
    ensures !Contains(className, "language-") ==> lang == className
    ensures Contains(className, "language-") ==>
      var i := IndexOf(className, "language-");
      0 <= i && i + 9 <= |className| && lang == className[..i] + className[i + 9..]
  {
    ReplaceFirst(className, "language-", "")
  }

  /** The class name a fenced block gets, `language-` followed by its language, gives that language back. */
  lemma LanguageOfFence(lang: string)
    ensures Language("language-" + lang) == lang
  {
    assert ("language-" + lang)[..9] == "language-";
    assert ("language-" + lang)[9..] == lang;
  }

  /** A `language-` that does not start the class name is cut out all the same. */
  lemma LanguageInMiddle()
    ensures Language("xlanguage-js") == "xjs"
  {
    var c := "xlanguage-js";
    assert c[..9][0] == 'x';
    assert !StartsWith(c, "language-");
    assert c[1..][..9] == "language-";
    assert IndexOf(c[1..], "language-") == 0;
    assert IndexOf(c, "language-") == 1;
  }

  /** Of two occurrences only the first goes. */
  lemma LanguageTwice()
    ensures Language("language-language-js") == "language-js"
  {
    var c := "language-language-js";
    assert c[..9] == "language-" && c[9..] == "language-js";
    assert StartsWith(c, "language-");
  }

  /** The HTML shown when the highlighter rejects: the text unescaped inside `pre` and `code`. */
  function FallbackHtml(codeText: string): (html: string)
    ensures StartsWith(html, "<pre><code>") && EndsWith(html, "</code></pre>")
    ensures |html| == |codeText| + 24 && html[11..|html| - 13] == codeText
  {
    "<pre><code>" + codeText + "</code></pre>"
  }

  datatype CodeView =
    | InlineCode(children: Node)
    | HighlightedHtml(html: string)
    | PlainBlock(className: string, children: Node)

  /**
   * `CodeElement` once its effect has settled. `highlight(text, language)`
   * is what the highlighter resolves with, or `None` when it rejects.
   */
  function RenderCode(className: Option<string>, children: Node,
                      highlight: (string, string) -> Option<string>): (v: CodeView)
    ensures v.InlineCode? <==> className.None? || className.value == ""
    ensures v.InlineCode? ==> v.children == children
    ensures !v.InlineCode? && !Truthy(children) ==> v == PlainBlock(className.value, children)
    ensures !v.InlineCode? && Truthy(children) && highlight(ExtractText(children), Language(className.value)).None? ==>
      v == HighlightedHtml(FallbackHtml(ExtractText(children)))
    ensures !v.InlineCode? && Truthy(children) && highlight(ExtractText(children), Language(className.value)).Some? ==>
      var html := highlight(ExtractText(children), Language(className.value)).value;
      v == if html != "" then HighlightedHtml(html) else PlainBlock(className.value, children)
  {
    if className.None? || className.value == "" then
      InlineCode(children)
    else
      var highlighted :=
        if Truthy(children) then
          var text := ExtractText(children);
          highlight(text, Language(className.value)).GetOr(FallbackHtml(text))
        else "";
      if highlighted != "" then HighlightedHtml(highlighted) else PlainBlock(className.value, children)
  }
}
