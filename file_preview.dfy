/**
 * The extension-to-language table the preview's code block is labelled
 * from, as an ordered list of entries looked up by exact key.
 */
module PreviewLanguages {
  import opened Wrappers
  import opened Text

  /**
   * `languageMap[ext]` for the 23 keys of the table in `getLanguageFromExtension`,
   * matched exactly (case included); `None` for every other key.
   */
  function LanguageOf(ext: string): (language: Option<string>)
    ensures language.Some? ==> ext != "" && IsLowerCase(ext) && language.value != "text"
  {
    match ext
    case "js" => Some("javascript")
    case "jsx" => Some("javascript")
    case "ts" => Some("typescript")
    case "tsx" => Some("typescript")
    case "py" => Some("python")
    case "java" => Some("java")
    case "cpp" => Some("cpp")
    case "c" => Some("c")
    case "cs" => Some("csharp")
    case "php" => Some("php")
    case "rb" => Some("ruby")
    case "go" => Some("go")
    case "rs" => Some("rust")
    case "html" => Some("html")
    case "css" => Some("css")
    case "scss" => Some("scss")
    case "json" => Some("json")
    case "xml" => Some("xml")
    case "md" => Some("markdown")
    case "yml" => Some("yaml")
    case "yaml" => Some("yaml")
    case "sh" => Some("bash")
    case "sql" => Some("sql")
    case _ => None
  }

  /** Entries of the table whose language name differs from the key, and the script pairs. */
  lemma TableEntries()
    ensures LanguageOf("py") == Some("python")
    ensures LanguageOf("js") == LanguageOf("jsx") == Some("javascript")
    ensures LanguageOf("ts") == LanguageOf("tsx") == Some("typescript")
    ensures LanguageOf("yml") == LanguageOf("yaml") == Some("yaml")
    ensures LanguageOf("md") == Some("markdown") && LanguageOf("sh") == Some("bash")
    ensures LanguageOf("cs") == Some("csharp") && LanguageOf("rb") == Some("ruby") && LanguageOf("rs") == Some("rust")
  {
  }
}

/**
 * The file preview dialog: loading a file's text (with the network fetch
 * supplied as its outcome), the language label of the code block and the
 * size shown in kilobytes.
 */
module FilePreview {
  import opened Wrappers
  import opened Text
  import opened GitHubUtils
  import opened GitHubApi
  import opened PreviewLanguages

  const BinaryPlaceholder := "Binary file - Preview not available"
  const FetchFailedMessage := "Failed to fetch file content"
  const LoadFailedMessage := "Failed to load file"

  /** What a rejected promise carries: an `Error` with its message, or any other value. */
  datatype Thrown = ErrorValue(message: string) | OtherValue

  /** Reading the body with `response.text()`. */
  datatype TextRead = Read(text: string) | ReadFailed(reason: Thrown)

  /** How `fetch(download_url)` settles: rejected, or a response with its `ok` flag and body. */
  datatype FetchOutcome = Rejected(reason: Thrown) | Responded(ok: bool, body: TextRead)

  /** `file.download_url` as a JavaScript condition: null and `""` are falsy. */
  predicate HasDownloadUrl(file: Content) {
    file.downloadUrl.Some? && file.downloadUrl.value != ""
  }

  /** The message shown for a failure: an Error's own message, otherwise the generic load failure. */
  function ErrorText(reason: Thrown): string {
    match reason
    case ErrorValue(message) => message
    case OtherValue => LoadFailedMessage
  }

  /**
   * What the `try` block ends with once the fetch has settled: `Some(text)`
   * for the body of an OK response, otherwise the text the `catch` block
   * stores as the error.
   */
  function Settle(outcome: FetchOutcome): (r: Result)
    ensures r.Loaded? <==> outcome.Responded? && outcome.ok && outcome.body.Read?
    ensures outcome.Responded? && outcome.ok && outcome.body.Read? ==> r == Loaded(outcome.body.text)
    ensures outcome.Responded? && !outcome.ok ==> r == Failed(FetchFailedMessage)
    ensures outcome.Responded? && outcome.ok && outcome.body.ReadFailed? ==> r == Failed(ErrorText(outcome.body.reason))
    ensures outcome.Rejected? ==> r == Failed(ErrorText(outcome.reason))
  {
    match outcome
    case Rejected(reason) => Failed(ErrorText(reason))
    case Responded(ok, body) =>
      if !ok then Failed(ErrorValue(FetchFailedMessage).message)
      else
        match body
        case Read(text) => Loaded(text)
        case ReadFailed(reason) => Failed(ErrorText(reason))
  }

  datatype Result = Loaded(text: string) | Failed(message: string)

  /** The dialog's state: `content`, `loading` and `error` (`None` for `null`). */
  class PreviewState {
    var content: string
    var loading: bool
    var error: Option<string>

    /** `useState('')`, `useState(false)`, `useState(null)`. */
    constructor()
      ensures content == "" && !loading && error == None
    {
      content := "";
      loading := false;
      error := None;
    }

    /**
     * `fetchFileContent` up to its `await`: nothing at all without a download
     * url; otherwise `loading` is set and the error cleared, and a binary file
     * gets the placeholder text and stops there. The url to fetch is returned
     * exactly when the fetch goes ahead, and `loading` stays set while it runs.
     */
    method BeginFetch(file: Content) returns (request: Option<string>)
      modifies this
      ensures !HasDownloadUrl(file) ==>
                request == None && content == old(content) && loading == old(loading) && error == old(error)
      ensures HasDownloadUrl(file) && IsBinaryFile(GetFileExtension(file.name)) ==>
                request == None && content == BinaryPlaceholder && !loading && error == None
      ensures HasDownloadUrl(file) && !IsBinaryFile(GetFileExtension(file.name)) ==>
                request == file.downloadUrl && content == old(content) && loading && error == None
    {
      if !HasDownloadUrl(file) {
        return None;
      }
      loading := true;
      error := None;
      var extension := GetFileExtension(file.name);
      if IsBinaryFile(extension) {
        content := BinaryPlaceholder;
        loading := false;
        return None;
      }
      request := file.downloadUrl;
    }

    /**
     * The rest of `fetchFileContent` once the fetch has settled: the text of
     * an OK response becomes the content; a failed response, a rejected fetch
     * or an unreadable body sets the error and keeps the old content; and the
     * `finally` block clears `loading` on every path.
     */
    method FinishFetch(outcome: FetchOutcome)
      modifies this
      ensures Settle(outcome).Loaded? ==> content == Settle(outcome).text && error == old(error)
      ensures Settle(outcome).Failed? ==> content == old(content) && error == Some(Settle(outcome).message)
      ensures !loading
    {
      match Settle(outcome) {
        case Loaded(text) =>
          content := text;
        case Failed(message) =>
          error := Some(message);
      }
      loading := false;
    }

    /**
     * The whole of `fetchFileContent` with the fetch settling as `outcome`:
     * it returns the url it fetched, if any, and afterwards `loading` is clear
     * whenever it was started.
     */
    method FetchFileContent(file: Content, outcome: FetchOutcome) returns (fetched: Option<string>)
      modifies this
      ensures fetched.Some? <==> HasDownloadUrl(file) && !IsBinaryFile(GetFileExtension(file.name))
      ensures fetched.Some? ==> fetched == file.downloadUrl
      ensures !HasDownloadUrl(file) ==>
                content == old(content) && loading == old(loading) && error == old(error)
      ensures HasDownloadUrl(file) ==> !loading
      ensures HasDownloadUrl(file) && IsBinaryFile(GetFileExtension(file.name)) ==>
                content == BinaryPlaceholder && error == None
      ensures fetched.Some? && Settle(outcome).Loaded? ==> content == Settle(outcome).text && error == None
      ensures fetched.Some? && Settle(outcome).Failed? ==> content == old(content) && error == Some(Settle(outcome).message)
    {
      fetched := BeginFetch(file);
      if fetched.Some? {
        FinishFetch(outcome);
      }
    }

    /** The effect: when the dialog is open and the file has a download url, load it. */
    method OnOpen(isOpen: bool, file: Content, outcome: FetchOutcome) returns (fetched: Option<string>)
      modifies this
      ensures !(isOpen && HasDownloadUrl(file)) ==>
                fetched == None && content == old(content) && loading == old(loading) && error == old(error)
      ensures isOpen && HasDownloadUrl(file) ==>
                !loading && (fetched.Some? <==> !IsBinaryFile(GetFileExtension(file.name)))
      ensures isOpen && HasDownloadUrl(file) && IsBinaryFile(GetFileExtension(file.name)) ==>
                content == BinaryPlaceholder && error == None
      ensures fetched.Some? && Settle(outcome).Loaded? ==> content == Settle(outcome).text && error == None
      ensures fetched.Some? && Settle(outcome).Failed? ==> content == old(content) && error == Some(Settle(outcome).message)
    {
      fetched := None;
      if isOpen && HasDownloadUrl(file) {
        fetched := FetchFileContent(file, outcome);
      }
    }
  }

  // ---------------------------------------------------------------------------
  // Language label and size
  // ---------------------------------------------------------------------------

  /**
   * `getLanguageFromExtension`: the table's language for the name's extension,
   * compared case-sensitively; `text` exactly when the extension is not a
   * key of the table, the empty extension included.
   */
  function LanguageFromExtension(filename: string): (language: string)
    ensures language == "text" <==> LanguageOf(GetFileExtension(filename)).None?
    ensures language != "text" ==> LanguageOf(GetFileExtension(filename)) == Some(language)
  {
    match LanguageOf(GetFileExtension(filename))
    case Some(language) => language
    case None => "text"
  }

  /** An extension with an upper-case letter is never in the table, so it is labelled `text`. */
  lemma UpperCaseExtensionIsText(filename: string)
    requires !IsLowerCase(GetFileExtension(filename))
    ensures LanguageFromExtension(filename) == "text"
  {
  }

  /** `App.tsx` is labelled TypeScript. */
  lemma TsxIsTypeScript()
    ensures LanguageFromExtension("App.tsx") == "typescript"
  {
    ExtensionOfName("App", "tsx");
    assert "App" + "." + "tsx" == "App.tsx";
  }

  /**
   * `App.TSX` is plain text, while the binary test ignores case: `logo.PNG`
   * and `logo.png` are both binary.
   */
  lemma LanguageIsCaseSensitive()
    ensures LanguageFromExtension("App.TSX") == "text"
    ensures IsBinaryFile(GetFileExtension("logo.PNG")) && IsBinaryFile(GetFileExtension("logo.png"))
  {
    ExtensionOfName("App", "TSX");
    assert "App" + "." + "TSX" == "App.TSX";
    assert !IsLowerCase("TSX") by { assert "TSX"[0] == 'T'; }
    UpperCaseExtensionIsText("App.TSX");
    PngIsBinary();
  }

  lemma PngIsBinary()
    ensures IsBinaryFile(GetFileExtension("logo.PNG")) && IsBinaryFile(GetFileExtension("logo.png"))
  {
    ExtensionOfName("logo", "PNG");
    assert "logo" + "." + "PNG" == "logo.PNG";
    ExtensionOfName("logo", "png");
    assert "logo" + "." + "png" == "logo.png";
    BinaryExamples();
  }

  /** Dot-files, names without a dot and names ending in a dot are labelled `text`. */
  lemma NoExtensionIsText(filename: string)
    requires |filename| <= TwoToThe32
    requires |DotFreeTail(filename)| + 1 >= |filename|
    ensures LanguageFromExtension(filename) == "text"
  {
    ExtensionIsDotFreeTail(filename);
  }

  /**
   * `Math.round(file.size / 1024)`: the whole number of kilobytes nearest the
   * size, halves rounded up.
   */
  function SizeKb(size: int): (kb: int)
    ensures (kb as real) - 0.5 <= (size as real) / 1024.0 < (kb as real) + 0.5
  {
    var kb := (size + 512) / 1024;
    assert 1024 * kb <= size + 512 < 1024 * kb + 1024;
    kb
  }

  // ---------------------------------------------------------------------------
  // What the dialog shows
  // ---------------------------------------------------------------------------

  datatype Body = LoadingMessage | ErrorMessage(message: string) | Code(language: string, text: string)

  datatype Pane = Pane(name: string, sizeKb: int, body: Body)

  /**
   * The dialog: nothing when closed; otherwise the name, the size in
   * kilobytes and, in order of precedence, the loading message, a non-empty
   * error (an empty message is falsy and shows the content instead), or the
   * content labelled with its language.
   */
  function View(isOpen: bool, file: Content, content: string, loading: bool, error: Option<string>): (pane: Option<Pane>)
    ensures pane.None? <==> !isOpen
    ensures pane.Some? ==> pane.value.sizeKb == SizeKb(file.size)
    ensures pane.Some? ==> pane.value.name == file.name
    ensures pane.Some? ==> (pane.value.body == LoadingMessage <==> loading)
    ensures pane.Some? ==> (pane.value.body.ErrorMessage? <==> !loading && error.Some? && error.value != "")
    ensures pane.Some? && pane.value.body.ErrorMessage? ==> pane.value.body.message == error.value
    ensures pane.Some? && pane.value.body.Code? ==>
              !loading && pane.value.body == Code(LanguageFromExtension(file.name), content)
  {
    if !isOpen then None
    else
      Some(Pane(file.name, SizeKb(file.size),
        if loading then LoadingMessage
        else if error.Some? && error.value != "" then ErrorMessage(error.value)
        else Code(LanguageFromExtension(file.name), content)))
  }

  /**
   * Opening the dialog on a file with a download url, from the initial
   * state: once the fetch settles, an OK response shows its text labelled
   * with the file's language, a non-OK response shows the fixed fetch-failure
   * message, a rejected fetch shows its non-empty message, and a binary file
   * shows the placeholder without any request.
   */
  method PreviewAfterOpen(file: Content, outcome: FetchOutcome) returns (pane: Option<Pane>)
    requires HasDownloadUrl(file)
    ensures !IsBinaryFile(GetFileExtension(file.name)) && outcome.Responded? && outcome.ok && outcome.body.Read? ==>
              pane == Some(Pane(file.name, SizeKb(file.size), Code(LanguageFromExtension(file.name), outcome.body.text)))
    ensures !IsBinaryFile(GetFileExtension(file.name)) && outcome.Responded? && !outcome.ok ==>
              pane == Some(Pane(file.name, SizeKb(file.size), ErrorMessage(FetchFailedMessage)))
    ensures !IsBinaryFile(GetFileExtension(file.name)) && outcome.Rejected? && ErrorText(outcome.reason) != "" ==>
              pane == Some(Pane(file.name, SizeKb(file.size), ErrorMessage(ErrorText(outcome.reason))))
    ensures IsBinaryFile(GetFileExtension(file.name)) ==>
              pane == Some(Pane(file.name, SizeKb(file.size), Code(LanguageFromExtension(file.name), BinaryPlaceholder)))
  {
    var state := new PreviewState();
    var fetched := state.OnOpen(true, file, outcome);
    pane := View(true, file, state.content, state.loading, state.error);
  }
}
