/** Worked paths for `data_loader`: last suffix only, case-sensitive, leading dots. */
module LoaderExamples {
  import opened Wrappers
  import opened PathSplit
  import opened Loader

  /** A path without `/` whose first character is not a dot has a stem. */
  lemma StemOfPlainName(root: seq<char>)
    requires '/' !in root && |root| > 0 && root[0] != '.'
    ensures HasStem(root)
  {
    assert forall k :: 0 <= k < |root| ==> root[k] != '/';
    assert RFind(root, '/') < 0 < |root| && root[0] != '.';
  }

  /** The rows of the dispatch table the examples below use. */
  lemma TableRows()
    ensures ReaderFor(".pdf") == Some(Pdf)
    ensures ReaderFor(".oc") == Some(Word)
    ensures ReaderFor(".csv") == Some(Csv)
    ensures ReaderFor(".bak") == None
    ensures ReaderFor(".PDF") == None
    ensures ReaderFor([]) == None
  {
  }

  /** Any file with a stem and the suffix `.oc` goes to the Word reader, like `.docx`. */
  lemma OcIsWord(root: seq<char>)
    requires HasStem(root)
    ensures DataLoader(root + ".oc") == Some(Word)
  {
    assert root + ".oc" == root + ['.'] + "oc";
    DataLoaderLastSuffix(root, "oc");
    assert ['.'] + "oc" == ".oc";
    TableRows();
  }

  /** The comparison is case-sensitive: no file ending in `.PDF` has a reader. */
  lemma UpperCaseExtension(root: seq<char>)
    requires HasStem(root)
    ensures DataLoader(root + ".PDF") == None
  {
    assert root + ".PDF" == root + ['.'] + "PDF";
    DataLoaderLastSuffix(root, "PDF");
    assert ['.'] + "PDF" == ".PDF";
    TableRows();
  }

  /** A literal path taken apart at its last dot. */
  lemma Pieces(root: seq<char>, name: seq<char>, path: seq<char>)
    requires |path| == |root| + 1 + |name|
    requires path[..|root|] == root && path[|root|] == '.' && path[|root| + 1..] == name
    ensures path == root + ['.'] + name
  {
    assert path == path[..|root|] + [path[|root|]] + path[|root| + 1..];
  }

  /** A plain file name taken apart at its last dot, with a stem before it. */
  lemma NamePieces(root: seq<char>, name: seq<char>, path: seq<char>)
    requires '/' !in root && |root| > 0 && root[0] != '.'
    requires |path| == |root| + 1 + |name|
    requires path[..|root|] == root && path[|root|] == '.' && path[|root| + 1..] == name
    ensures path == root + ['.'] + name && HasStem(root)
  {
    Pieces(root, name, path);
    StemOfPlainName(root);
  }

  /** `a.txt.pdf` is read as a PDF: only the last suffix counts. */
  lemma DoubleSuffixPdf()
    ensures DataLoader("a.txt.pdf") == Some(Pdf)
  {
    NamePieces("a.txt", "pdf", "a.txt.pdf");
    DataLoaderLastSuffix("a.txt", "pdf");
    assert ['.'] + "pdf" == ".pdf";
    TableRows();
  }

  /** `a.pdf.bak` has no reader, although it holds `.pdf`. */
  lemma BackupOfPdf()
    ensures DataLoader("a.pdf.bak") == None
  {
    NamePieces("a.pdf", "bak", "a.pdf.bak");
    DataLoaderLastSuffix("a.pdf", "bak");
    assert ['.'] + "bak" == ".bak";
    TableRows();
  }

  /** `data/table` has a stem: its last component `table` does not start with a dot. */
  lemma StemInDirectory()
    ensures HasStem("data/table")
  {
    var root := "data/table";
    assert RFind(root, '/') == 4 by {
      assert root[4] == '/';
      assert forall k :: 4 < k < |root| ==> root[k] != '/';
    }
    assert root[5] != '.';
  }

  /** A directory part does not matter: `data/table.csv` is read as CSV. */
  lemma CsvInDirectory()
    ensures DataLoader("data/table.csv") == Some(Csv)
  {
    StemInDirectory();
    Pieces("data/table", "csv", "data/table.csv");
    DataLoaderLastSuffix("data/table", "csv");
    assert ['.'] + "csv" == ".csv";
    TableRows();
  }

  /** A leading dot does not start an extension: `.pdf` has none, so no reader. */
  lemma HiddenFile()
    ensures DataLoader(".pdf") == None
  {
    var p := ".pdf";
    assert RFind(p, '.') == 0 by {
      assert p[0] == '.';
      assert forall k :: 0 < k < |p| ==> p[k] != '.';
    }
    assert RFind(p, '/') == -1 by {
      assert forall k :: 0 <= k < |p| ==> p[k] != '/';
    }
    assert Ext(p) == [];
    TableRows();
  }

  /** A name without a dot has the empty extension and no reader. */
  lemma NoExtension()
    ensures DataLoader("README") == None
  {
    var p := "README";
    assert RFind(p, '.') == -1 by {
      assert forall k :: 0 <= k < |p| ==> p[k] != '.';
    }
    assert Ext(p) == [];
    TableRows();
  }

  /** A dot in a directory name is not an extension: `x.pdf/readme` has no reader. */
  lemma DotInDirectory()
    ensures DataLoader("x.pdf/readme") == None
  {
    var p := "x.pdf/readme";
    assert RFind(p, '/') == 5 by {
      assert p[5] == '/';
      assert forall k :: 5 < k < |p| ==> p[k] != '/';
    }
    assert RFind(p, '.') == 1 by {
      assert p[1] == '.';
      assert forall k :: 1 < k < |p| ==> p[k] != '.';
    }
    assert Ext(p) == [];
    TableRows();
  }
}
