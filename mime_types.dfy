/** `MimeTypes`: the extension table and the lookup by the text after the
    last dot of a file name. The class-wide `_types` map and the
    function-local `initialized` flag become the fields of one object. */
module MimeTypes {
  import opened Wrappers
  import opened Text

  /** The entries `initTypes` assigns. */
  const TABLE: map<string, string> := map[
    ".html" := "text/html",
    ".css" := "text/css",
    ".js" := "application/javascript",
    ".png" := "image/png",
    ".jpg" := "image/jpeg",
    ".jpeg" := "image/jpeg",
    ".gif" := "image/gif"
  ]

  const DEFAULT_TYPE: string := "text/plain"

  /** The type registered for an extension, or `text/plain`. */
  function Lookup(ext: string): (r: string)
    ensures r == DEFAULT_TYPE || r in TABLE.Values
    ensures ext in TABLE <==> r != DEFAULT_TYPE
  {
    if ext in TABLE then TABLE[ext] else DEFAULT_TYPE
  }

  /** The type `getType` answers for `filename`. */
  function TypeOf(filename: string): (r: string)
    ensures r == DEFAULT_TYPE || r in TABLE.Values
    ensures '.' !in filename ==> r == DEFAULT_TYPE
  {
    match FindLastOf(filename, {'.'})
    case None => DEFAULT_TYPE
    case Some(dot) => Lookup(filename[dot..])
  }

  class MimeTypes {
    var types: map<string, string>
    var initialized: bool

    /** Once initialised, the map holds exactly the table. */
    ghost predicate Valid()
      reads this
    {
      (initialized ==> types == TABLE) && (!initialized ==> types == map[])
    }

    /** The state before the first lookup: an empty map, not initialised. */
    constructor ()
      ensures Valid() && !initialized
    {
      types := map[];
      initialized := false;
    }

    /** `MimeTypes::initTypes`: assigns every entry of the table. */
    method InitTypes()
      modifies this
      ensures types == old(types) + TABLE
      ensures initialized == old(initialized)
    {
      types := types + TABLE;
    }

    /** `MimeTypes::getType`: fills the table on first use, then looks the
        extension up. */
    method GetType(filename: string) returns (t: string)
      requires Valid()
      modifies this
      ensures Valid() && initialized
      ensures t == TypeOf(filename)
    {
      if !initialized {
        InitTypes();
        initialized := true;
      }
      var dot := FindLastOf(filename, {'.'});
      if dot.Some? {
        var extension := filename[dot.value..];
        if extension in types {
          return types[extension];
        }
      }
      return DEFAULT_TYPE;
    }
  }

  /** The seven known extensions give their listed types (both `.jpg` and
      `.jpeg` give `image/jpeg`); any other extension, including a known one
      in another case, gives `text/plain`. */
  lemma LookupTable(ext: string)
    ensures ext == ".html" ==> Lookup(ext) == "text/html"
    ensures ext == ".css" ==> Lookup(ext) == "text/css"
    ensures ext == ".js" ==> Lookup(ext) == "application/javascript"
    ensures ext == ".png" ==> Lookup(ext) == "image/png"
    ensures ext == ".jpg" || ext == ".jpeg" ==> Lookup(ext) == "image/jpeg"
    ensures ext == ".gif" ==> Lookup(ext) == "image/gif"
    ensures ext !in {".html", ".css", ".js", ".png", ".jpg", ".jpeg", ".gif"} ==> Lookup(ext) == DEFAULT_TYPE
  {
  }

  /** The extension is taken from the last dot: a name made of any stem, a
      dot and a dot-free suffix is typed by that suffix alone. */
  lemma TypeOfLastDot(stem: string, suffix: string)
    requires '.' !in suffix
    ensures TypeOf(stem + "." + suffix) == Lookup("." + suffix)
  {
    var name := stem + "." + suffix;
    assert name[|stem|] == '.';
    forall j | |stem| < j < |name|
      ensures name[j] != '.'
    {
      assert name[j] == suffix[j - |stem| - 1];
    }
    assert name[|stem|..] == "." + suffix;
  }

  /** A name without a dot is `text/plain`. */
  lemma TypeOfNoDot(filename: string)
    requires '.' !in filename
    ensures TypeOf(filename) == DEFAULT_TYPE
  {
    forall j | 0 <= j < |filename|
      ensures filename[j] != '.'
    {
      assert filename[j] in filename;
    }
  }

  /** Matching is case-sensitive. */
  lemma TypeOfUpperCase()
    ensures TypeOf("INDEX.HTML") == DEFAULT_TYPE
  {
    TypeOfLastDot("INDEX", "HTML");
    assert "INDEX.HTML" == "INDEX" + "." + "HTML";
    assert "." + "HTML" == ".HTML";
    LookupTable(".HTML");
  }

  /** Only the last dot counts. */
  lemma TypeOfTwoDots()
    ensures TypeOf("a.html.png") == "image/png"
  {
    TypeOfLastDot("a.html", "png");
    assert "a.html.png" == "a.html" + "." + "png";
    assert "." + "png" == ".png";
    LookupTable(".png");
  }

  /** A dot in a directory name does not make an extension. */
  lemma TypeOfDottedDirectory()
    ensures TypeOf("dir.html/file") == DEFAULT_TYPE
  {
    TypeOfLastDot("dir", "html/file");
    assert "dir.html/file" == "dir" + "." + "html/file";
    assert "." + "html/file" == ".html/file";
    LookupTable(".html/file");
  }
}
