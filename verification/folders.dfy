/** FoldersController.Subdirectories: the direct subdirectories of a
    directory, found among the indexed directory terms that start with its
    path, one page at a time. The term lookup (Search.GetTermsFor) is not
    visible here: its answer is the parameter `terms`, in index order. */
module Folders {
  import opened Wrappers
  import opened Text

  /** The path searched: "/" followed by the directory, or "/" alone. */
  function SearchPrefix(directory: Option<string>): (r: string)
    ensures |r| >= 1 && r[0] == '/'
    ensures directory.Some? ==> r == "/" + directory.value
    ensures directory.None? ==> r == "/"
  {
    "/" + directory.GetOr("")
  }

  /** The number of '/' a direct subdirectory has: those of the prefix, plus
      one unless no directory was given (the root's children have one). */
  function Nesting(directory: Option<string>): (r: nat)
    ensures directory.None? ==> r == 1
    ensures directory.Some? ==> r == 1 + Count(directory.value, '/') + 1
  {
    CountAppend("/", directory.GetOr(""), '/');
    Count(SearchPrefix(directory), '/') + (if directory.None? then 0 else 1)
  }

  /** A term is listed when it starts with the prefix and has exactly the
      nesting's number of '/'. */
  predicate IsSubdirectory(prefix: string, nesting: nat, term: string) {
    StartsWith(term, prefix) && Count(term, '/') == nesting
  }

  function Matches(prefix: string, nesting: nat): string -> bool {
    t => IsSubdirectory(prefix, nesting, t)
  }

  /** The reference answer: filter the terms, skip `start`, take `pageSize`. */
  function Page(terms: seq<string>, prefix: string, nesting: nat, start: int, pageSize: int): seq<string> {
    Take(Skip(Filter(terms, Matches(prefix, nesting)), start), pageSize)
  }

  /** Every entry of a page is a term that passes the filter, and a page
      holds at most `pageSize` entries. */
  lemma PageMembers(terms: seq<string>, prefix: string, nesting: nat, start: int, pageSize: int)
    ensures var r := Page(terms, prefix, nesting, start, pageSize);
      && |r| <= (if pageSize <= 0 then 0 else pageSize)
      && forall i :: 0 <= i < |r| ==> r[i] in terms && IsSubdirectory(prefix, nesting, r[i])
  {
    var f := Filter(terms, Matches(prefix, nesting));
    var s := Skip(f, start);
    var r := Take(s, pageSize);
    forall i | 0 <= i < |r| ensures r[i] in terms && IsSubdirectory(prefix, nesting, r[i]) {
      assert r[i] == f[|f| - |s| + i];
    }
  }

  /** Subdirectories: one pass over the terms, counting the matches to skip
      and stopping the page at `pageSize`. */
  method Subdirectories(directory: Option<string>, terms: seq<string>, start: int, pageSize: int)
    returns (r: seq<string>)
    ensures r == Page(terms, SearchPrefix(directory), Nesting(directory), start, pageSize)
  {
    var prefix := SearchPrefix(directory);
    var nesting := Nesting(directory);
    var p := Matches(prefix, nesting);
    var matched := 0;
    r := [];
    var i := 0;
    assert terms[..0] == [];
    assert Take(Skip(Filter(terms[..0], p), start), pageSize) == [];
    while i < |terms|
      invariant 0 <= i <= |terms|
      invariant matched == |Filter(terms[..i], p)|
      invariant r == Take(Skip(Filter(terms[..i], p), start), pageSize)
    {
      var t := terms[i];
      FilterStep(terms, i, p);
      assert p(t) == IsSubdirectory(prefix, nesting, t);
      ghost var f := Filter(terms[..i], p);
      if IsSubdirectory(prefix, nesting, t) {
        assert Filter(terms[..i + 1], p) == f + [t];
        WindowStep(Filter(terms[..i], p), t, start, pageSize);
        if matched >= start && |r| < pageSize {
          r := r + [t];
        }
        matched := matched + 1;
        assert r == Take(Skip(Filter(terms[..i + 1], p), start), pageSize);
      } else {
        assert Filter(terms[..i + 1], p) == f + [];
        assert f + [] == f;
      }
      i := i + 1;
    }
    assert terms[..i] == terms;
  }

  /** Filtering one more term appends it exactly when it passes. */
  lemma FilterStep(terms: seq<string>, i: nat, p: string -> bool)
    requires i < |terms|
    ensures Filter(terms[..i + 1], p) == Filter(terms[..i], p) + (if p(terms[i]) then [terms[i]] else [])
  {
    assert terms[..i + 1] == terms[..i] + [terms[i]];
    FilterAppend(terms[..i], [terms[i]], p);
    assert [terms[i]][1..] == [];
  }

  /** One more match extends the page exactly when it is past the skipped
      matches and the page is not yet full. */
  lemma WindowStep(f: seq<string>, t: string, start: int, pageSize: int)
    ensures Take(Skip(f + [t], start), pageSize) ==
      if |f| >= start && |Take(Skip(f, start), pageSize)| < pageSize then Take(Skip(f, start), pageSize) + [t]
      else Take(Skip(f, start), pageSize)
  {
    var s := Skip(f, start);
    var s1 := Skip(f + [t], start);
    if |f| >= start {
      assert s1 == s + [t];
    } else {
      assert s1 == [] && s == [];
    }
  }

  /** With no directory the listing holds top-level directories: paths
      with a single, leading '/'. */
  lemma RootListsTopLevel(terms: seq<string>, start: int, pageSize: int, d: string)
    requires d in Page(terms, SearchPrefix(None), Nesting(None), start, pageSize)
    ensures |d| >= 1 && d[0] == '/' && Count(d, '/') == 1
  {
    PageMembers(terms, "/", 1, start, pageSize);
  }

  /** The '/' of a term that starts with a prefix are those of the prefix
      and those after it. */
  lemma CountAfterPrefix(prefix: string, d: string)
    requires StartsWith(d, prefix)
    ensures Count(d, '/') == Count(prefix, '/') + Count(d[|prefix|..], '/')
  {
    assert d == prefix + d[|prefix|..];
    CountAppend(prefix, d[|prefix|..], '/');
  }

  /** Under a directory, each listed path is the directory's path followed
      by text holding exactly one '/'. That text need not start with the
      '/': see SiblingChildListed. */
  lemma ChildrenAreDirect(terms: seq<string>, start: int, pageSize: int, dir: string, d: string)
    requires d in Page(terms, SearchPrefix(Some(dir)), Nesting(Some(dir)), start, pageSize)
    ensures StartsWith(d, "/" + dir)
    ensures Count(d[|dir| + 1..], '/') == 1
  {
    var prefix := SearchPrefix(Some(dir));
    PageMembers(terms, prefix, Nesting(Some(dir)), start, pageSize);
    assert IsSubdirectory(prefix, Nesting(Some(dir)), d);
    CountAfterPrefix(prefix, d);
    CountAppend("/", dir, '/');
  }

  /** The prefix a direct child of the directory starts with: the
      directory's path and a '/'. */
  function ChildPrefix(directory: Option<string>): (r: string)
    ensures directory.None? ==> r == SearchPrefix(directory)
    ensures directory.Some? ==> r == SearchPrefix(directory) + "/"
    ensures Count(r, '/') == Nesting(directory)
  {
    CountAppend(SearchPrefix(directory), "/", '/');
    if directory.None? then "/" else SearchPrefix(directory) + "/"
  }

  /** Subdirectories as evidently intended: a term must continue the
      directory's path with a '/' to be one of its children. */
  function SubdirectoriesFixed(directory: Option<string>, terms: seq<string>, start: int, pageSize: int)
    : (r: seq<string>)
    ensures |r| <= (if pageSize <= 0 then 0 else pageSize)
    ensures forall i :: 0 <= i < |r| ==> r[i] in terms && IsSubdirectory(ChildPrefix(directory), Nesting(directory), r[i])
  {
    PageMembers(terms, ChildPrefix(directory), Nesting(directory), start, pageSize);
    Page(terms, ChildPrefix(directory), Nesting(directory), start, pageSize)
  }

  /** At the root the corrected listing is the listing as written. */
  lemma FixedAgreesAtRoot(terms: seq<string>, start: int, pageSize: int)
    ensures SubdirectoriesFixed(None, terms, start, pageSize) == Page(terms, SearchPrefix(None), Nesting(None), start, pageSize)
  {
  }

  /** A path is matched by the corrected filter exactly when it is the
      directory's path, a '/', and a name without '/'. */
  lemma FixedMatchesDirectChildren(dir: string, d: string)
    ensures IsSubdirectory(ChildPrefix(Some(dir)), Nesting(Some(dir)), d) <==>
      |d| >= |dir| + 2 && d[..|dir| + 2] == "/" + dir + "/" && '/' !in d[|dir| + 2..]
  {
    var prefix := ChildPrefix(Some(dir));
    assert prefix == "/" + dir + "/";
    if StartsWith(d, prefix) {
      CountAfterPrefix(prefix, d);
    }
  }

  /** Every entry of the corrected listing is a direct child. */
  lemma FixedChildrenAreDirect(terms: seq<string>, start: int, pageSize: int, dir: string, d: string)
    requires d in SubdirectoriesFixed(Some(dir), terms, start, pageSize)
    ensures |d| >= |dir| + 2 && d[..|dir| + 2] == "/" + dir + "/" && '/' !in d[|dir| + 2..]
  {
    PageMembers(terms, ChildPrefix(Some(dir)), Nesting(Some(dir)), start, pageSize);
    FixedMatchesDirectChildren(dir, d);
  }

  /** A one-term listing holds the term exactly when it matches. */
  lemma SingletonPage(t: string, prefix: string, nesting: nat)
    ensures Page([t], prefix, nesting, 0, 1) == if IsSubdirectory(prefix, nesting, t) then [t] else []
  {
    assert [t][1..] == [];
  }

  /** As written, a child of a sibling directory whose name extends this
      one's is listed too: under "a", the child "c" of "ab" ("/ab/c" starts
      with "/a" and has two '/'). The corrected listing leaves it out. */
  lemma SiblingChildListed(dir: string, more: string, name: string, d: string)
    requires '/' !in dir && more != [] && '/' !in more && '/' !in name
    requires d == "/" + dir + more + "/" + name
    ensures Page([d], SearchPrefix(Some(dir)), Nesting(Some(dir)), 0, 1) == [d]
    ensures SubdirectoriesFixed(Some(dir), [d], 0, 1) == []
  {
    SiblingChildMatches(dir, more, name, d);
    SingletonPage(d, SearchPrefix(Some(dir)), Nesting(Some(dir)));
    SiblingChildRejected(dir, more, name, d);
    SingletonPage(d, ChildPrefix(Some(dir)), Nesting(Some(dir)));
  }

  lemma SiblingChildMatches(dir: string, more: string, name: string, d: string)
    requires '/' !in dir && more != [] && '/' !in more && '/' !in name
    requires d == "/" + dir + more + "/" + name
    ensures IsSubdirectory(SearchPrefix(Some(dir)), Nesting(Some(dir)), d)
  {
    var prefix := SearchPrefix(Some(dir));
    var tail := more + ("/" + name);
    assert d == prefix + tail;
    assert d[..|prefix|] == prefix;
    CountAfterPrefix(prefix, d);
    CountAppend(more, "/" + name, '/');
    CountAppend("/", name, '/');
    CountAppend("/", dir, '/');
  }

  lemma SiblingChildRejected(dir: string, more: string, name: string, d: string)
    requires more != [] && '/' !in more
    requires d == "/" + dir + more + "/" + name
    ensures !IsSubdirectory(ChildPrefix(Some(dir)), Nesting(Some(dir)), d)
  {
    var prefix := ChildPrefix(Some(dir));
    assert prefix == "/" + dir + "/";
    assert d[|dir| + 1] == more[0] != prefix[|dir| + 1];
  }
}
