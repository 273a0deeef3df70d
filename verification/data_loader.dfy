/**
 `data_loader` (insert_data.py:31-48): the reader chosen for a file by its
 extension. The reader objects themselves (PDF, Word, HTML, JSON, CSV and plain
 text loaders) belong to an outside library, so the model returns only which branch
 of the if/elif chain is taken, or `None` when no branch matches. Exceptions the
 reader constructors raise are not modelled.
 */
module Loader {
  import opened Wrappers
  import opened PathSplit

  datatype ReaderKind = Pdf | Word | Html | Json | Csv | Text

  /** The if/elif chain of `data_loader`, applied to the extension. */
  function ReaderFor(ext: seq<char>): (reader: Option<ReaderKind>)
    ensures forall kind :: reader == Some(kind) <==> ext in Extensions(kind)
    ensures reader == None <==> forall kind :: ext !in Extensions(kind)
  {
    if ext == ".pdf" then Some(Pdf)
    else if ext in [".oc", ".docx"] then Some(Word)
    else if ext == ".html" then Some(Html)
    else if ext == ".json" then Some(Json)
    else if ext == ".csv" then Some(Csv)
    else if ext in [".txt", ".data", ".dat"] then Some(Text)
    else None
  }

  /** The dispatch table read the other way: the extensions each reader kind serves. */
  function Extensions(kind: ReaderKind): set<seq<char>>
  {
    match kind
    case Pdf => {".pdf"}
    case Word => {".oc", ".docx"}
    case Html => {".html"}
    case Json => {".json"}
    case Csv => {".csv"}
    case Text => {".txt", ".data", ".dat"}
  }

  /**
   `data_loader(path)`: the reader kind is exactly the one whose extension set holds
   the path's extension, and `None` when no kind lists it. The comparison is
   case-sensitive and the extension is the last suffix only.
   */
  function DataLoader(path: seq<char>): (reader: Option<ReaderKind>)
    ensures forall kind :: reader == Some(kind) <==> Ext(path) in Extensions(kind)
    ensures reader == None <==> forall kind :: Ext(path) !in Extensions(kind)
  {
    ReaderFor(Ext(path))
  }

  /** No extension is served by two reader kinds, so the table is a function. */
  lemma ExtensionsDisjoint(k1: ReaderKind, k2: ReaderKind)
    requires k1 != k2
    ensures Extensions(k1) !! Extensions(k2)
  {
  }

  /**
   Only the last suffix decides: `root.name` with a stem before the dot gets the
   reader of `.name`, whatever other dots `root` holds.
   */
  lemma DataLoaderLastSuffix(root: seq<char>, name: seq<char>)
    requires '.' !in name && '/' !in name
    requires HasStem(root)
    ensures DataLoader(root + ['.'] + name) == ReaderFor(['.'] + name)
  {
    ExtOfLastSuffix(root, name);
  }
}
