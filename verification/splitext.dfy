/**
 `os.path.splitext` as `data_loader` (insert_data.py:31-48) uses it, with the POSIX
 rules of Python's `posixpath`: `/` separates path components, and the extension
 is the suffix from the last `.` of the final component, except that dots leading
 that component do not start an extension.
 */
module PathSplit {

  /** `s.rfind(c)`: the index of the last `c` in `s`, or -1 if there is none. */
  function RFind(s: seq<char>, c: char): (r: int)
    ensures -1 <= r < |s|
    ensures r >= 0 ==> s[r] == c
    ensures forall k :: r < k < |s| ==> s[k] != c
    decreases |s|
  {
    if |s| == 0 then -1
    else if s[|s| - 1] == c then |s| - 1
    else RFind(s[..|s| - 1], c)
  }

  /** The final component of `root` has a character other than `.`. */
  predicate HasStem(root: seq<char>)
  {
    exists k :: RFind(root, '/') < k < |root| && root[k] != '.'
  }

  /**
   `splitext(path)` as a (root, extension) pair: the two parts make up the path,
   and a non-empty extension is one `.` followed by neither `.` nor `/`.
   */
  function SplitExt(path: seq<char>): (parts: (seq<char>, seq<char>))
    ensures parts.0 + parts.1 == path
    ensures parts.1 == [] || (parts.1[0] == '.' && '.' !in parts.1[1..] && '/' !in parts.1)
  {
    var sepIndex := RFind(path, '/');
    var dotIndex := RFind(path, '.');
    if dotIndex > sepIndex && exists k :: sepIndex < k < dotIndex && path[k] != '.' then
      (path[..dotIndex], path[dotIndex..])
    else
      (path, [])
  }

  /**
   `os.path.splitext(path)[-1]`: a suffix of the path, either empty or one `.`
   followed by neither `.` nor `/`.
   */
  function Ext(path: seq<char>): (ext: seq<char>)
    ensures |ext| <= |path| && path[|path| - |ext|..] == ext
    ensures ext == [] || (ext[0] == '.' && '.' !in ext[1..] && '/' !in ext)
  {
    SplitExt(path).1
  }

  /** A non-empty extension is cut from a root whose final component has a stem. */
  lemma ExtHasStem(path: seq<char>)
    requires Ext(path) != []
    ensures HasStem(SplitExt(path).0)
  {
    var root := SplitExt(path).0;
    var sepIndex := RFind(path, '/');
    var dotIndex := RFind(path, '.');
    var k :| sepIndex < k < dotIndex && path[k] != '.';
    RFindPrefix(path, '/', dotIndex);
    assert root == path[..dotIndex];
    assert root[k] == path[k];
  }

  /** The last `c` of a prefix that holds every `c` of the whole. */
  lemma RFindPrefix(s: seq<char>, c: char, n: nat)
    requires n <= |s|
    requires RFind(s, c) < n
    ensures RFind(s[..n], c) == RFind(s, c)
  {
    assert forall k :: 0 <= k < n ==> s[..n][k] == s[k];
  }

  /** Appending text without `c` leaves the last `c` where it was. */
  lemma RFindAppend(s: seq<char>, t: seq<char>, c: char)
    requires c !in t
    ensures RFind(s + t, c) == RFind(s, c)
  {
    forall k | |s| <= k < |s + t|
      ensures (s + t)[k] != c
    {
      assert (s + t)[k] == t[k - |s|];
    }
    RFindPrefix(s + t, c, |s|);
    assert (s + t)[..|s|] == s;
  }

  /**
   Only the last suffix counts: a path ending in `.name`, with `name` free of `.`
   and `/` and a stem before the dot, has extension `.name`.
   */
  lemma ExtOfLastSuffix(root: seq<char>, name: seq<char>)
    requires '.' !in name && '/' !in name
    requires HasStem(root)
    ensures Ext(root + ['.'] + name) == ['.'] + name
  {
    var path := root + ['.'] + name;
    assert path == root + (['.'] + name);
    RFindAppend(root, ['.'] + name, '/');
    RFindAppend(root + ['.'], name, '.');
    assert RFind(root + ['.'], '.') == |root|;
    var k :| RFind(root, '/') < k < |root| && root[k] != '.';
    assert path[k] == root[k];
    assert path[|root|..] == ['.'] + name;
  }
}
