/**
 * The TypewriterManager of index.js: the text of the output element for the
 * current language is typed one character per frame, and the first few
 * characters (as many as the language's highlight word has) are wrapped in
 * green spans. The delay between frames is a callback, `TimerFired`.
 */
module Typewriter {
  import opened Wrappers

  const SpanOpen := "<span class=\"green\">"
  const SpanClose := "</span>"

  /** `highlightWords[lang]`: only "en" and "ru" have one. */
  function HighlightWord(lang: string): Option<string>
  {
    if lang == "en" then Some("{Middle}")
    else if lang == "ru" then Some("{Мидл}")
    else None
  }

  /** How many leading characters get a span: the highlight word's length, 0
      when the language has none. */
  function HighlightLength(lang: string): (h: nat)
    ensures lang == "en" ==> h == 8
    ensures lang == "ru" ==> h == 6
    ensures lang != "en" && lang != "ru" ==> h == 0
  {
    match HighlightWord(lang)
    case Some(w) => |w|
    case None => 0
  }

  /** One character in a green span. */
  function Span(c: char): string
  {
    SpanOpen + [c] + SpanClose
  }

  /** Each character of `s`, in order, in its own span. */
  function Spans(s: string): string
  {
    if s == [] then "" else Spans(s[..|s| - 1]) + Span(s[|s| - 1])
  }

  /** The markup of one frame: the first `count` characters of `text` (all of
      them when `count` is larger), the first `h` of those in spans and the rest
      bare, without HTML escaping. */
  function Frame(text: string, count: nat, h: nat): string
  {
    var shown := text[..Min(count, |text|)];
    var m := Min(h, |shown|);
    Spans(shown[..m]) + shown[m..]
  }

  /** `Spans` puts character `k` at a fixed place, inside its own span. */
  lemma {:induction false} SpansAt(s: string, k: nat)
    requires k < |s|
    ensures |Spans(s)| == |s| * |Span(' ')|
    ensures Spans(s)[k * |Span(' ')|..(k + 1) * |Span(' ')|] == Span(s[k])
  {
    var w := |Span(' ')|;
    var init := s[..|s| - 1];
    if k == |s| - 1 {
      SpansLength(init);
      assert Spans(s) == Spans(init) + Span(s[k]);
      assert |Spans(init)| == k * w;
      assert |Span(s[k])| == w;
      assert (k + 1) * w == k * w + w;
    } else {
      SpansAt(init, k);
      assert init[k] == s[k];
      assert Spans(s) == Spans(init) + Span(s[|s| - 1]);
      assert (k + 1) * w <= |init| * w by {
        assert k + 1 <= |init|;
        MulMono(k + 1, |init|, w);
      }
      assert |Span(s[|s| - 1])| == w;
      assert |s| * w == |init| * w + w;
    }
  }

  lemma {:induction false} SpansLength(s: string)
    ensures |Spans(s)| == |s| * |Span(' ')|
  {
    if s != [] {
      SpansLength(s[..|s| - 1]);
      assert |s| * |Span(' ')| == (|s| - 1) * |Span(' ')| + |Span(' ')|;
    }
  }

  lemma MulMono(a: nat, b: nat, w: nat)
    requires a <= b
    ensures a * w <= b * w
  {
  }

  /** Each frame extends the one before it by exactly one piece: the next
      character, in a span while within the highlight length. Frames stop
      growing once the whole text is shown. */
  lemma {:induction false} FrameGrows(text: string, count: nat, h: nat)
    ensures count < |text| ==>
      Frame(text, count + 1, h) ==
        Frame(text, count, h) + (if count < h then Span(text[count]) else [text[count]])
    ensures count >= |text| ==> Frame(text, count + 1, h) == Frame(text, count, h)
  {
    if count < |text| {
      var a, b := text[..count], text[..count + 1];
      assert Min(count, |text|) == count && Min(count + 1, |text|) == count + 1;
      if count < h {
        assert b[..count + 1] == b && a[..count] == a;
        assert b[..count] == a;
        assert Spans(b) == Spans(a) + Span(text[count]);
      } else {
        assert b[..Min(h, count + 1)] == a[..Min(h, count)];
        assert b[Min(h, count + 1)..] == a[Min(h, count)..] + [text[count]];
      }
    }
  }

  /** The last frame shows every character of the text. */
  lemma LastFrame(text: string, h: nat)
    ensures Frame(text, |text|, h) == Spans(text[..Min(h, |text|)]) + text[Min(h, |text|)..]
  {
    assert text[..|text|] == text;
  }

  /** Without a highlight word the frame is the bare prefix. */
  lemma FrameWithoutHighlight(text: string, count: nat)
    ensures Frame(text, count, 0) == text[..Min(count, |text|)]
  {
  }

  /** An output element: its `data-text` attribute and its markup. */
  class Output {
    const dataText: Option<string>
    var innerHtml: string

    constructor (dataText: Option<string>)
      ensures this.dataText == dataText && innerHtml == ""
    {
      this.dataText := dataText;
      innerHtml := "";
    }
  }

  class TypewriterManager {
    const outputEn: Output?
    const outputRu: Output?
    var index: nat
    var fullText: string
    var isTyping: bool

    /** The index never passes one beyond the end of the text. */
    ghost predicate Valid()
      reads this
    {
      index <= |fullText| + 1
    }

    /** The constructor starts idle at index 0 with no text, and `init` then
        starts typing in `lang`, the language manager's current language. */
    constructor (outputEn: Output?, outputRu: Output?, lang: string)
      modifies if lang == "en" then outputEn else outputRu
      ensures Valid() && this.outputEn == outputEn && this.outputRu == outputRu
      ensures OutputFor(lang) == null ==> index == 0 && fullText == "" && !isTyping
      ensures OutputFor(lang) != null ==>
        fullText == (match OutputFor(lang).dataText case Some(t) => t case None => "") &&
        index == 1 && isTyping && OutputFor(lang).innerHtml == ""
    {
      this.outputEn := outputEn;
      this.outputRu := outputRu;
      index := 0;
      fullText := "";
      isTyping := false;
      new;
      StartTyping(lang);
    }

    /** `getOutputElement`: the English output for "en", the Russian one otherwise. */
    function OutputFor(lang: string): (o: Output?)
      reads this
      ensures lang == "en" ==> o == outputEn
      ensures lang != "en" ==> o == outputRu
    {
      if lang == "en" then outputEn else outputRu
    }

    /** `buildHtmlContent`: the markup for the first `index` characters. */
    method BuildHtmlContent(lang: string) returns (html: string)
      ensures html == Frame(fullText, index, HighlightLength(lang))
    {
      html := "";
      var h := HighlightLength(lang);
      var i := 0;
      while i < index && i < |fullText|
        invariant i <= |fullText| && i <= index
        invariant html == Spans(fullText[..Min(i, h)]) + fullText[Min(i, h)..i]
      {
        var c := fullText[i];
        if h > 0 && i < h {
          assert fullText[..i + 1][..i] == fullText[..i];
          html := html + Span(c);
        } else {
          html := html + [c];
        }
        i := i + 1;
      }
      assert i == Min(index, |fullText|);
      assert fullText[..i][..Min(h, i)] == fullText[..Min(i, h)];
    }

    /** `typeWriter`: stop when typing was cancelled or the text is done;
        otherwise render the current frame and advance by one character. */
    method TypeWriter(out: Output, lang: string)
      requires Valid()
      modifies this`index, this`isTyping, out`innerHtml
      ensures Valid()
      ensures !old(isTyping) || old(index) > |fullText| ==>
        !isTyping && index == old(index) && out.innerHtml == old(out.innerHtml)
      ensures old(isTyping) && old(index) <= |fullText| ==>
        isTyping && index == old(index) + 1 &&
        out.innerHtml == Frame(fullText, old(index), HighlightLength(lang))
    {
      if !isTyping || index > |fullText| {
        isTyping := false;
        return;
      }
      var htmlContent := BuildHtmlContent(lang);
      out.innerHtml := htmlContent;
      index := index + 1;
    }

    /** The `setTimeout` callback after a frame: type on while typing. */
    method TimerFired(out: Output, lang: string)
      requires Valid()
      modifies this`index, this`isTyping, out`innerHtml
      ensures Valid()
      ensures !old(isTyping) ==> !isTyping && index == old(index) && out.innerHtml == old(out.innerHtml)
      ensures old(isTyping) && old(index) > |fullText| ==>
        !isTyping && index == old(index) && out.innerHtml == old(out.innerHtml)
      ensures old(isTyping) && old(index) <= |fullText| ==>
        isTyping && index == old(index) + 1 &&
        out.innerHtml == Frame(fullText, old(index), HighlightLength(lang))
    {
      if isTyping {
        TypeWriter(out, lang);
      }
    }

    /** `startTyping`: nothing without an output element; otherwise take its
        `data-text` (or ""), restart at index 0, clear the output and type the
        first (empty) frame. */
    method StartTyping(lang: string)
      requires Valid()
      modifies this`index, this`isTyping, this`fullText, OutputFor(lang)
      ensures Valid()
      ensures OutputFor(lang) == null ==>
        index == old(index) && isTyping == old(isTyping) && fullText == old(fullText)
      ensures OutputFor(lang) != null ==>
        fullText == (match OutputFor(lang).dataText case Some(t) => t case None => "") &&
        index == 1 && isTyping && OutputFor(lang).innerHtml == ""
    {
      var out := OutputFor(lang);
      if out == null {
        return;
      }
      fullText := match out.dataText case Some(t) => t case None => "";
      index := 0;
      isTyping := true;
      out.innerHtml := "";
      TypeWriter(out, lang);
      assert Frame(fullText, 0, HighlightLength(lang)) == "" by {
        assert fullText[..0] == [];
      }
    }

    /** `stopTyping` */
    method StopTyping()
      modifies this`isTyping
      ensures !isTyping
    {
      isTyping := false;
    }
  }

  /** Typing a text from the start renders frames 0, 1, ..., |text| and then
      stops, never taking the index past |text| + 1: after `k` further timer
      callbacks the output shows frame `min(k, |text|)`. */
  method TypeAll(t: TypewriterManager, out: Output, lang: string, k: nat)
    requires t.Valid() && t.isTyping && t.index == 1 && out.innerHtml == Frame(t.fullText, 0, HighlightLength(lang))
    modifies t`index, t`isTyping, out`innerHtml
    ensures t.Valid() && t.index == Min(k, |t.fullText|) + 1
    ensures t.isTyping <==> k <= |t.fullText|
    ensures out.innerHtml == Frame(t.fullText, Min(k, |t.fullText|), HighlightLength(lang))
  {
    var j := 0;
    while j < k
      invariant j <= k
      invariant t.Valid() && t.index == Min(j, |t.fullText|) + 1
      invariant t.isTyping <==> j <= |t.fullText|
      invariant out.innerHtml == Frame(t.fullText, Min(j, |t.fullText|), HighlightLength(lang))
    {
      t.TimerFired(out, lang);
      j := j + 1;
    }
  }
}
