/** The `/convert` endpoint: request validation, defaulting, the conversion
    pipeline and the mapping of its outcome to a response. The Markdown
    library and the headless browser are parameters: `parse` stands for
    `marked.parse`, `render` for launching the browser, loading the document
    and saving it as a PDF. Either may throw, which is a `Failure` here. */
module Convert {
  import opened Wrappers
  import opened Escape
  import opened Document

  /** The recognised fields of the JSON body; each may be absent. */
  datatype ConvertRequest = ConvertRequest(markdown: Option<string>, title: Option<string>, css: Option<string>)

  /** What the handler sends back. */
  datatype Response =
    | Pdf(bytes: seq<bv8>)       // 200, `application/pdf`, shown inline as output.pdf
    | BadRequest(error: string)  // 400 with the JSON body `{ error }`
    | ServerError(text: string)  // 500 with a plain-text body

  const MissingMarkdown: string := "Markdown content is missing"
  const ConversionFailed: string := "Error converting Markdown to PDF"
  const DefaultTitle: string := "Resume"
  /** The handler passes an empty base stylesheet. */
  const BaseCss: string := ""

  /** HTTP status code of a response. */
  function Status(resp: Response): (code: nat)
    ensures code in {200, 400, 500}
    ensures code == 200 <==> resp.Pdf?
  {
    match resp
    case Pdf(_) => 200
    case BadRequest(_) => 400
    case ServerError(_) => 500
  }

  /** JavaScript truthiness of an optional string: absent and `""` are falsy. */
  predicate Truthy(v: Option<string>) {
    v.Some? && v.value != ""
  }

  /** `v || d` for an optional string: the value when truthy, else `d`. */
  function OrElse(v: Option<string>, d: string): string {
    if Truthy(v) then v.value else d
  }

  /** The document handed to the browser for a given HTML fragment. */
  function ConvertDocument(fragment: string, title: string, baseCss: string, css: Option<string>): (doc: string)
    ensures Head <= doc
  {
    BuildHtml(HtmlOptions(title, fragment, baseCss, css))
  }

  /** `convertMarkdownToPdf`: parse, assemble the document, render it. */
  function ConvertMarkdownToPdf(markdown: string, title: string, baseCss: string, css: Option<string>,
                                parse: string -> Result<string, string>,
                                render: string -> Result<seq<bv8>, string>): (r: Result<seq<bv8>, string>)
    ensures r.Success? <==> parse(markdown).Success? && render(ConvertDocument(parse(markdown).value, title, baseCss, css)).Success?
    ensures r.Success? ==> r.value == render(ConvertDocument(parse(markdown).value, title, baseCss, css)).value
  {
    match parse(markdown)
    case Failure(e) => Failure(e)
    case Success(fragment) => render(ConvertDocument(fragment, title, baseCss, css))
  }

  /** The handler for `POST /convert`. */
  function HandleConvert(req: ConvertRequest,
                         parse: string -> Result<string, string>,
                         render: string -> Result<seq<bv8>, string>): (resp: Response)
    ensures Status(resp) == 400 <==> !Truthy(req.markdown)
  {
    if !Truthy(req.markdown) then BadRequest(MissingMarkdown)
    else
      match ConvertMarkdownToPdf(req.markdown.value, OrElse(req.title, DefaultTitle), BaseCss, req.css, parse, render)
      case Success(pdf) => Pdf(pdf)
      case Failure(_) => ServerError(ConversionFailed)
  }

  /** A missing or empty `markdown` field gives 400 with the fixed JSON
      error, and nothing is parsed or rendered: the response is the same
      whatever the parser and the browser would have done. */
  lemma MissingMarkdownRejected(req: ConvertRequest,
                                parse: string -> Result<string, string>, render: string -> Result<seq<bv8>, string>,
                                parse': string -> Result<string, string>, render': string -> Result<seq<bv8>, string>)
    ensures HandleConvert(req, parse, render) == BadRequest(MissingMarkdown) <==> !Truthy(req.markdown)
    ensures !Truthy(req.markdown) ==> HandleConvert(req, parse, render) == HandleConvert(req, parse', render')
  {
  }

  /** The document handed to the browser for this request and fragment. */
  function RequestDocument(req: ConvertRequest, fragment: string): (doc: string)
    ensures Head <= doc
  {
    ConvertDocument(fragment, OrElse(req.title, DefaultTitle), BaseCss, req.css)
  }

  /** With markdown present, a PDF is answered exactly when parsing and
      rendering both succeed, and it is the browser's output for the
      document built from the parsed fragment, the title (or "Resume" when
      missing or empty), an empty base stylesheet and the request's css. */
  lemma ConvertSucceeds(req: ConvertRequest,
                        parse: string -> Result<string, string>, render: string -> Result<seq<bv8>, string>)
    requires Truthy(req.markdown)
    ensures var resp, md := HandleConvert(req, parse, render), req.markdown.value;
      && (resp.Pdf? <==> parse(md).Success? && render(RequestDocument(req, parse(md).value)).Success?)
      && (resp.Pdf? ==> resp.bytes == render(RequestDocument(req, parse(md).value)).value)
  {
  }

  /** A failure of the parser or the browser gives 500 with the fixed
      message; the error the library threw is never sent to the caller. */
  lemma ConvertFailureIsGeneric(req: ConvertRequest,
                                parse: string -> Result<string, string>, render: string -> Result<seq<bv8>, string>)
    ensures var resp := HandleConvert(req, parse, render);
      && (Status(resp) == 500 <==>
           Truthy(req.markdown) &&
           (parse(req.markdown.value).Failure? || render(RequestDocument(req, parse(req.markdown.value).value)).Failure?))
      && (Status(resp) == 500 ==> resp == ServerError(ConversionFailed))
  {
  }

  /** The document the browser receives: its title reads back as the
      request's title, or "Resume" when that is missing or empty. */
  lemma RequestDocumentTitle(req: ConvertRequest, fragment: string)
    ensures ReadTitle(RequestDocument(req, fragment)).Some?
    ensures Unescape(ReadTitle(RequestDocument(req, fragment)).value) == if Truthy(req.title) then req.title.value else DefaultTitle
  {
    TitleElementReadsBack(HtmlOptions(OrElse(req.title, DefaultTitle), fragment, BaseCss, req.css));
  }

  /** Its style element holds exactly the request's css, or nothing when the
      field is absent, since the base stylesheet is empty. */
  lemma RequestDocumentStyle(req: ConvertRequest, fragment: string)
    ensures Framed(RequestDocument(req, fragment), StyleOffset(OrElse(req.title, DefaultTitle)), StyleOpen,
                   CustomRules(req.css), StyleClose)
  {
    var o := HtmlOptions(OrElse(req.title, DefaultTitle), fragment, BaseCss, req.css);
    StyleElementBaseThenCustom(o);
    assert RequestDocument(req, fragment) == BuildHtml(o);
    FramedFromEmpty(BuildHtml(o), StyleOffset(o.title), StyleOpen, CustomRules(req.css), StyleClose);
  }

  /** Its body is the parsed fragment, unescaped, between the opening body
      tag and the closing markup. */
  lemma RequestDocumentBody(req: ConvertRequest, fragment: string)
    ensures Framed(RequestDocument(req, fragment), BodyOffset(HtmlOptions(OrElse(req.title, DefaultTitle), fragment, BaseCss, req.css)),
                   BodyOpen, fragment, Tail)
  {
    var o := HtmlOptions(OrElse(req.title, DefaultTitle), fragment, BaseCss, req.css);
    BodyInsertedVerbatim(o);
    assert RequestDocument(req, fragment) == BuildHtml(o);
  }
}
