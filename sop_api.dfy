/**
 * The request handlers of the SOP API (list, read, save, create, delete) over
 * the SOP directory, seen as a map from file name to file content.
 *
 * Requests are reduced to what the handlers use: the `file` query parameter
 * (absent or present), or the `file` and `content` fields of the parsed JSON
 * body. Responses are reduced to the status code, the `success` flag and
 * either the error message or the data.
 */
module SopApi {
  import opened Wrappers
  import TitleRule

  /** The error messages the handlers send: "missing file name", "file does not exist", "file already exists". */
  const MissingFileName: string := "缺少文件名"
  const FileNotFound: string := "文件不存在"
  const FileExists: string := "文件已存在"

  /** One element of the list response: `{name, title, file}`. */
  datatype Entry = Entry(name: string, title: string, file: string)

  datatype Data =
    | NoData
    | Listing(entries: seq<Entry>)
    | Document(title: string, content: string)

  /**
   * `Ok` is status 200 with `{success: true}` and, for list and read, `data`;
   * `Fail` is `{success: false, error}` with its status code.
   */
  datatype Response = Ok(data: Data) | Fail(status: int, error: string) {
    function Status(): int {
      if Ok? then 200 else status
    }
  }

  /** `name.endsWith('.md')`: the name is some stem followed by ".md". */
  predicate EndsWithMd(name: string)
    ensures EndsWithMd(name) <==> exists stem: string :: name == stem + ".md"
  {
    var ends := |name| >= 3 && name[|name| - 3..] == ".md";
    assert ends ==> name == name[..|name| - 3] + ".md";
    ends
  }

  predicate Distinct(names: seq<string>) {
    forall i, j :: 0 <= i < j < |names| ==> names[i] != names[j]
  }

  /** What `readdirSync` returns: every file of the directory exactly once, in some order. */
  ghost predicate IsListingOf(names: seq<string>, files: map<string, string>) {
    Distinct(names) && forall n :: n in names <==> n in files
  }

  // ---------------------------------------------------------------------------
  // The list projection
  // ---------------------------------------------------------------------------

  /** `files.filter(f => f.endsWith('.md'))` */
  function MdNames(names: seq<string>): (r: seq<string>)
    ensures |r| <= |names|
    ensures forall n :: n in r <==> n in names && EndsWithMd(n)
  {
    if names == [] then []
    else (if EndsWithMd(names[0]) then [names[0]] else []) + MdNames(names[1..])
  }

  /**
   * `.map(file => ({name: file, title, file}))` over the filtered names: one
   * entry per listed `.md` name, in the listing's order, each carrying its
   * name twice and the title of its stored content.
   */
  function ListEntries(names: seq<string>, files: map<string, string>): (r: seq<Entry>)
    requires forall n :: n in names && EndsWithMd(n) ==> n in files
    ensures |r| == |MdNames(names)| <= |names|
    ensures forall i :: 0 <= i < |r| ==>
      && r[i].name == r[i].file == MdNames(names)[i]
      && EndsWithMd(r[i].name) && r[i].file in files
      && r[i].title == TitleRule.Title(files[r[i].file], r[i].file)
    ensures forall n :: n in names && EndsWithMd(n) ==> exists i :: 0 <= i < |r| && r[i].name == n
  {
    var md := MdNames(names);
    var r := seq(|md|, i requires 0 <= i < |md| => Entry(md[i], TitleRule.Title(files[md[i]], md[i]), md[i]));
    assert forall n :: n in names && EndsWithMd(n) ==> exists i :: 0 <= i < |md| && md[i] == n && r[i].name == n;
    r
  }

  /** The filter keeps the relative order: filtering a concatenation concatenates the filtered parts. */
  lemma {:induction false} MdNamesAppend(a: seq<string>, b: seq<string>)
    ensures MdNames(a + b) == MdNames(a) + MdNames(b)
  {
    if a == [] {
      assert a + b == b;
    } else {
      assert (a + b)[1..] == a[1..] + b;
      MdNamesAppend(a[1..], b);
    }
  }

  /** A listing without repeated names gives a filtered list without repeated names. */
  lemma {:induction false} MdNamesDistinct(names: seq<string>)
    requires Distinct(names)
    ensures Distinct(MdNames(names))
  {
    if names != [] {
      assert names[0] !in names[1..];
      MdNamesDistinct(names[1..]);
    }
  }

  // ---------------------------------------------------------------------------
  // The directory and its handlers
  // ---------------------------------------------------------------------------

  class Directory {
    /** The SOP directory: file name to content. */
    var files: map<string, string>

    /** No file has the empty name: the empty name resolves to the directory itself. */
    ghost predicate Valid()
      reads this
    {
      "" !in files
    }

    constructor (initial: map<string, string>)
      requires "" !in initial
      ensures Valid() && files == initial
    {
      files := initial;
    }

    /**
     * `fs.existsSync(path.join(SOP_DIR, name))`: joining the empty name gives
     * the directory itself, which exists; any other name exists exactly when
     * it is a file of the directory.
     */
    predicate Exists(name: string)
      reads this
      ensures name == "" ==> Exists(name)
      ensures name != "" ==> (Exists(name) <==> name in files)
    {
      name == "" || name in files
    }

    /**
     * `handleSOPList`: one entry per `.md` file, in the order of the listing,
     * with `name` and `file` the file name and the title given by the title rule.
     */
    method List(listing: seq<string>) returns (r: Response)
      requires IsListingOf(listing, files)
      ensures r.Ok? && r.data.Listing?
      ensures |r.data.entries| == |MdNames(listing)|
      ensures forall i :: 0 <= i < |r.data.entries| ==>
        var e := r.data.entries[i];
        && e.name == e.file == MdNames(listing)[i]
        && e.file in files
        && e.title == TitleRule.Title(files[e.file], e.file)
      ensures forall n :: n in files && EndsWithMd(n) ==>
        exists i :: 0 <= i < |r.data.entries| && r.data.entries[i].name == n
      ensures forall i :: 0 <= i < |r.data.entries| ==> EndsWithMd(r.data.entries[i].name)
      ensures forall i, j :: 0 <= i < j < |r.data.entries| ==>
        r.data.entries[i].name != r.data.entries[j].name
    {
      var entries := ListEntries(listing, files);
      MdNamesDistinct(listing);
      r := Ok(Listing(entries));
    }

    /**
     * `handleSOPContent`: 400 without a file name, 404 for a file that does
     * not exist, otherwise the content and its title.
     */
    method Content(file: Option<string>) returns (r: Response)
      ensures file == None || file == Some("") ==> r == Fail(400, MissingFileName)
      ensures file.Some? && file.value != "" && file.value !in files ==> r == Fail(404, FileNotFound)
      ensures file.Some? && file.value != "" && file.value in files ==>
        r == Ok(Document(TitleRule.Title(files[file.value], file.value), files[file.value]))
    {
      if file.None? || file.value == "" {
        return Fail(400, MissingFileName);
      }
      var name := file.value;
      if !Exists(name) {
        return Fail(404, FileNotFound);
      }
      var content := files[name];
      var title := TitleRule.Title(content, name);
      return Ok(Document(title, content));
    }

    /** `handleSOPSave`: writes the content whether or not the file exists. */
    method Save(file: string, content: string) returns (r: Response)
      requires Valid() && file != ""
      modifies this
      ensures Valid()
      ensures files == old(files)[file := content]
      ensures r == Ok(NoData)
    {
      files := files[file := content];
      r := Ok(NoData);
    }

    /** `handleSOPCreate`: 400 if the file exists, and then nothing is written; otherwise writes it. */
    method Create(file: string, content: string) returns (r: Response)
      requires Valid()
      modifies this
      ensures Valid()
      ensures old(Exists(file)) ==> r == Fail(400, FileExists) && files == old(files)
      ensures !old(Exists(file)) ==> r == Ok(NoData) && files == old(files)[file := content]
    {
      if Exists(file) {
        return Fail(400, FileExists);
      }
      files := files[file := content];
      r := Ok(NoData);
    }

    /** `handleSOPDelete`: 400 without a file name, removes an existing file, 404 otherwise. */
    method Delete(file: Option<string>) returns (r: Response)
      requires Valid()
      modifies this
      ensures Valid()
      ensures file == None || file == Some("") ==> r == Fail(400, MissingFileName) && files == old(files)
      ensures file.Some? && file.value != "" && file.value in old(files) ==>
        r == Ok(NoData) && files == old(files) - {file.value}
      ensures file.Some? && file.value != "" && file.value !in old(files) ==>
        r == Fail(404, FileNotFound) && files == old(files)
    {
      if file.None? || file.value == "" {
        return Fail(400, MissingFileName);
      }
      var name := file.value;
      if Exists(name) {
        files := files - {name};
        r := Ok(NoData);
      } else {
        r := Fail(404, FileNotFound);
      }
    }
  }

  // ---------------------------------------------------------------------------
  // Sequences of requests, as a client sees them
  // ---------------------------------------------------------------------------

  /** A saved document reads back with the saved content; no other file changes. */
  method SaveThenRead(d: Directory, file: string, content: string) returns (r: Response)
    requires d.Valid() && file != ""
    modifies d
    ensures d.Valid()
    ensures d.files == old(d.files)[file := content]
    ensures r == Ok(Document(TitleRule.Title(content, file), content))
  {
    var saved := d.Save(file, content);
    r := d.Content(Some(file));
  }

  /** Creating a name twice: the second request is refused and the first content stays. */
  method CreateTwice(d: Directory, file: string, first: string, second: string) returns (r1: Response, r2: Response)
    requires d.Valid() && file != "" && file !in d.files
    modifies d
    ensures r1 == Ok(NoData) && r2 == Fail(400, FileExists)
    ensures d.files == old(d.files)[file := first]
  {
    r1 := d.Create(file, first);
    r2 := d.Create(file, second);
  }

  /** A deleted document is no longer found, neither by read nor by a second delete. */
  method DeleteThenRead(d: Directory, file: string) returns (r: Response, again: Response)
    requires d.Valid() && file in d.files
    modifies d
    ensures r == Fail(404, FileNotFound) && again == Fail(404, FileNotFound)
    ensures d.files == old(d.files) - {file}
  {
    var deleted := d.Delete(Some(file));
    r := d.Content(Some(file));
    again := d.Delete(Some(file));
  }

  /** Listing and reading leave the directory as it was. */
  method ListThenRead(d: Directory, listing: seq<string>, file: Option<string>) returns (l: Response, r: Response)
    requires IsListingOf(listing, d.files)
    ensures d.files == old(d.files)
    ensures l.Ok? && r.Status() in {200, 400, 404}
  {
    l := d.List(listing);
    r := d.Content(file);
  }
}
