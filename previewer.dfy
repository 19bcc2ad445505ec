/** The previewer's dispatch: the current format, the converter each format uses, and the
    passes that run over the converted HTML. The markdown converter is a parameter; the
    typesetting passes are recorded by name. */
module Previewer {
  import opened Strings
  import Latex

  /** What turns the input into HTML. */
  datatype Converter = Marked | LatexConverter | Passthrough

  /** What runs over the HTML once it is in the preview. */
  datatype PostPass = MathJax | KaTeX | MermaidPass

  /** The preview as the dispatch leaves it: its HTML, the converter called (if any), and the
      passes run after it, in order. */
  datatype Preview = Preview(html: string, converter: Option<Converter>, passes: seq<PostPass>)

  const PlaceholderHtml := "<p style=\"color: #656d76; font-style: italic;\">Preview will appear here...</p>"

  /** The specification of `updatePreview` for a given format and input. */
  function PreviewOf(format: string, input: string, marked: string -> string): Preview
  {
    var content := Trim(input);
    if content == [] then Preview(PlaceholderHtml, None, [])
    else if format == "markdown" then Preview(marked(content), Some(Marked), [KaTeX, MermaidPass])
    else if format == "latex" then Preview(Latex.LatexDocument(content), Some(LatexConverter), [MathJax])
    else if format == "html" then Preview(content, Some(Passthrough), [KaTeX])
    else Preview("", None, [])
  }

  /** Blank input shows the fixed placeholder, calls no converter and runs no pass. */
  lemma BlankInputPlaceholder(format: string, input: string, marked: string -> string)
    ensures AllWhitespace(input) <==> PreviewOf(format, input, marked) == Preview(PlaceholderHtml, None, [])
  {
    TrimSpec(input);
  }

  /** Which typesetter runs: MathJax exactly for LaTeX, KaTeX exactly for markdown and HTML,
      the Mermaid pass exactly for markdown, and never on blank input. */
  lemma PassesByFormat(format: string, input: string, marked: string -> string)
    ensures var p := PreviewOf(format, input, marked).passes;
      && (MathJax in p <==> format == "latex" && !AllWhitespace(input))
      && (KaTeX in p <==> (format == "markdown" || format == "html") && !AllWhitespace(input))
      && (MermaidPass in p <==> format == "markdown" && !AllWhitespace(input))
  {
    TrimSpec(input);
  }

  /** The HTML format shows the trimmed input itself, and an unknown format shows nothing. */
  lemma PassthroughAndUnknown(format: string, input: string, marked: string -> string)
    requires !AllWhitespace(input)
    ensures format == "html" ==> PreviewOf(format, input, marked).html == Trim(input)
    ensures format !in ["markdown", "latex", "html"] ==> PreviewOf(format, input, marked) == Preview("", None, [])
  {
    TrimSpec(input);
  }

  /** The LaTeX format shows the converted document of the trimmed input. */
  lemma LatexFormat(input: string, marked: string -> string)
    requires !AllWhitespace(input)
    ensures PreviewOf("latex", input, marked) ==
      Preview(Latex.LatexDocument(Trim(input)), Some(LatexConverter), [MathJax])
  {
    TrimSpec(input);
  }

  /** `ContentPreviewer`: the format, the input text and the preview it shows. */
  class ContentPreviewer {
    var currentFormat: string
    var inputValue: string
    var preview: Preview
    const marked: string -> string

    /** The preview shows what the dispatch makes of the current format and input. */
    predicate Valid()
      reads this
    {
      preview == PreviewOf(currentFormat, inputValue, marked)
    }

    /** The constructor starts in markdown with an empty input and renders it at once, so the
        placeholder is shown from the start. */
    constructor(marked: string -> string)
      ensures Valid()
      ensures currentFormat == "markdown" && inputValue == "" && this.marked == marked
      ensures preview == Preview(PlaceholderHtml, None, [])
    {
      currentFormat := "markdown";
      inputValue := "";
      preview := Preview("", None, []);
      this.marked := marked;
      new;
      UpdatePreview();
    }

    /** `updatePreview` */
    method UpdatePreview()
      modifies this`preview
      ensures Valid()
      ensures preview == PreviewOf(currentFormat, inputValue, marked)
    {
      var content := Trim(inputValue);
      if content == [] {
        preview := Preview(PlaceholderHtml, None, []);
        return;
      }
      var html := "";
      var converter: Option<Converter> := None;
      if currentFormat == "markdown" {
        html := marked(content);
        converter := Some(Marked);
      } else if currentFormat == "latex" {
        html := Latex.RenderLatex(content);
        converter := Some(LatexConverter);
      } else if currentFormat == "html" {
        html := content;
        converter := Some(Passthrough);
      }
      var passes: seq<PostPass> := [];
      if currentFormat == "latex" {
        passes := passes + [MathJax];
      } else if currentFormat == "markdown" || currentFormat == "html" {
        passes := passes + [KaTeX];
      }
      if currentFormat == "markdown" {
        passes := passes + [MermaidPass];
      }
      preview := Preview(html, converter, passes);
    }

    /** `setFormat`: the format is set first, then the preview is rendered in it. */
    method SetFormat(format: string)
      modifies this`currentFormat, this`preview
      ensures Valid()
      ensures currentFormat == format && inputValue == old(inputValue)
      ensures preview == PreviewOf(format, inputValue, marked)
    {
      currentFormat := format;
      UpdatePreview();
    }

    /** An edit of the input, once the debounce has fired. */
    method SetInput(value: string)
      modifies this`inputValue, this`preview
      ensures Valid()
      ensures inputValue == value && currentFormat == old(currentFormat)
      ensures preview == PreviewOf(currentFormat, value, marked)
    {
      inputValue := value;
      UpdatePreview();
    }
  }
}
