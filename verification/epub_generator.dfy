/**
 * `generateEpub`: the title becomes a file name under the `epub` directory, the
 * markdown becomes one HTML chapter, the packaging library builds the book in
 * memory and the buffer is written to the file; any throw on the way is rewrapped
 * as "Failed to generate EPUB: " and the cause's message. The packaging library and
 * the file system are not modelled: what they do is an input.
 */
module EpubGenerator {
  import opened Wrappers
  import opened JsText
  import opened Filenames
  import opened MarkdownHtml

  /** The three options the generator is called with. */
  datatype EpubOptions = EpubOptions(title: string, author: string, content: string)

  /** The book-level options handed to the packaging library. */
  datatype Metadata = Metadata(title: string, author: string, publisher: string)

  /** One chapter: its title and its HTML. */
  datatype Chapter = Chapter(title: string, data: string)

  datatype Book = Book(metadata: Metadata, chapters: seq<Chapter>)

  /** `join(process.cwd(), 'epub', filename)`, kept as its three segments. */
  datatype OutputPath = OutputPath(cwd: string, directory: string, file: string)

  /** The `writeFile` call the generator makes. */
  datatype WriteCall = WriteCall(path: OutputPath, data: seq<bv8>)

  /** The collaborators: the working directory, the packaging library (a buffer or a throw)
      and `writeFile` (a throw, if it throws). */
  datatype Environment = Environment(
    cwd: string,
    package: Book -> Result<seq<bv8>, Thrown>,
    write: WriteCall -> Option<Thrown>)

  const Publisher := "Article to EPUB Converter"

  const OutputDirectory := "epub"

  /** The prefix of every message the generator throws. */
  const FailurePrefix := "Failed to generate EPUB: "

  /** The book the packaging library is asked for: the title and author as given, the fixed
      publisher, and a single chapter under the book's title holding the converted markdown. */
  function BookOf(options: EpubOptions): (book: Book)
    ensures book.metadata.title == options.title && book.metadata.author == options.author
    ensures book.metadata.publisher == Publisher
    ensures |book.chapters| == 1 && book.chapters[0].title == options.title
    ensures "<p>" <= book.chapters[0].data
  {
    Book(Metadata(options.title, options.author, Publisher),
         [Chapter(options.title, MarkdownToHtml(options.content))])
  }

  /** Where the book is written: a sanitised file name inside the `epub` directory. */
  function PathOf(cwd: string, title: string): (path: OutputPath)
    ensures path.cwd == cwd && path.directory == OutputDirectory
    ensures path.file == EpubFileName(title)
  {
    OutputPath(cwd, OutputDirectory, EpubFileName(title))
  }

  /** One call of the generator: the path it returns or the message it throws, and the write
      it made, if it got that far. */
  datatype Generation = Generation(result: Result<OutputPath, string>, written: Option<WriteCall>)

  /** `generateEpub(options)`. */
  function GenerateEpub(options: EpubOptions, env: Environment): (g: Generation)
    ensures g.result.Failure? ==> FailurePrefix <= g.result.error
    ensures g.result.Success? ==> g.written.Some? && g.result.value == g.written.value.path
  {
    var path := PathOf(env.cwd, options.title);
    match env.package(BookOf(options))
    case Failure(cause) => Generation(Failure(Wrap(FailurePrefix, cause)), None)
    case Success(buffer) =>
      var call := WriteCall(path, buffer);
      match env.write(call)
      case Some(cause) => Generation(Failure(Wrap(FailurePrefix, cause)), Some(call))
      case None => Generation(Success(path), Some(call))
  }

  // ---------------------------------------------------------------------------
  // Properties
  // ---------------------------------------------------------------------------

  /** The generator succeeds exactly when packaging and writing both succeed; it then
      returns the sanitised path under `epub`, having written there the buffer the
      packaging library built. */
  lemma GenerateSucceeds(options: EpubOptions, env: Environment)
    ensures var g := GenerateEpub(options, env);
      var packed := env.package(BookOf(options));
      var path := OutputPath(env.cwd, OutputDirectory, EpubFileName(options.title));
      && (g.result.Success? <==> packed.Success? && env.write(WriteCall(path, packed.value)).None?)
      && (g.result.Success? ==> g.result.value == path && g.written == Some(WriteCall(path, packed.value)))
  {
  }

  /** A packaging throw stops the generator before anything is written; a write throw comes
      after the packaging. Either way the message is the prefix and the cause's message,
      or "Unknown error" for a thrown value that is not an `Error`. */
  lemma GenerateFails(options: EpubOptions, env: Environment)
    ensures var g := GenerateEpub(options, env);
      var packed := env.package(BookOf(options));
      && (packed.Failure? ==> g.written.None? && g.result == Failure(FailurePrefix + MessageOf(packed.error)))
      && (packed.Success? && env.write(g.written.value).Some? ==>
            g.result == Failure(FailurePrefix + MessageOf(env.write(g.written.value).value)))
      && (packed.Success? ==> g.written.Some? && g.written.value.data == packed.value)
  {
  }

  /** The file name cannot leave the `epub` directory: it holds no path separator and no
      dot before its extension, and it is never just the extension when the title is not
      empty. */
  lemma FileStaysInDirectory(title: string)
    ensures var name := EpubFileName(title);
      && '/' !in name && '\\' !in name
      && (forall i :: 0 <= i < |name| - 5 ==> name[i] != '.')
      && (|title| > 0 ==> |name| > 5)
  {
    var name := EpubFileName(title);
    var stem := SanitizedTitle(title);
    assert name == stem + ".epub";
    forall i | 0 <= i < |name| ensures name[i] != '/' && name[i] != '\\' {
      if i < |stem| {
        assert IsSafe(stem[i]);
      } else {
        assert name[i] == ".epub"[i - |stem|];
      }
    }
    forall i | 0 <= i < |name| - 5 ensures name[i] != '.' {
      assert IsSafe(stem[i]);
    }
  }
}
