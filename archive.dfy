/** The archive access layer of pkg/archive/zipfile.go: a zip container seen as
    the ordered list of its entries, with exact-name and substring lookup. */
module Archive {
  import opened Errors

  /** One file inside the container: its full path-like name and its stored
      (compressed) bytes, which only the abstract entry reader looks at. */
  datatype Entry = Entry(name: string, stored: seq<bv8>)

  /** The two backends behind the `ZipReader` interface. Both hold the entry
      list of the container; they differ only in how they are closed. */
  datatype ZipReader =
    | FileReader(file: seq<Entry>)  // `ZipFileReader`, over a `zip.ReadCloser`
    | UrlReader(file: seq<Entry>)   // `ZipUrlReader`, over an in-memory `zip.Reader`

  /** `ZipFile`: an opened archive, backed by one of the two readers. */
  datatype ZipFile = ZipFile(data: ZipReader)

  /** `Files` of either backend: the container's entries in storage order. */
  function ReaderFiles(r: ZipReader): (fs: seq<Entry>)
    ensures r.FileReader? ==> fs == r.file
    ensures r.UrlReader? ==> fs == r.file
  {
    match r
    case FileReader(file) => file
    case UrlReader(file) => file
  }

  /** `Close` of either backend. Closing the file-backed reader releases an
      operating-system handle whose outcome is given as `osResult`; the
      in-memory reader holds nothing and always succeeds. */
  function ReaderClose(r: ZipReader, osResult: Option<Error>): (err: Option<Error>)
    ensures r.UrlReader? ==> err == None
    ensures r.FileReader? ==> err == osResult
  {
    match r
    case FileReader(_) => osResult
    case UrlReader(_) => None
  }

  /** `ZipFile.Files`: the backend's entry list, unchanged. */
  function Files(z: ZipFile): (fs: seq<Entry>)
    ensures fs == z.data.file
  {
    ReaderFiles(z.data)
  }

  /** `ZipFile.close`: delegates to the backend. An archive fetched from a URL
      always closes without error. */
  function Close(z: ZipFile, osResult: Option<Error>): (err: Option<Error>)
    ensures z.data.UrlReader? ==> err == None
    ensures z.data.FileReader? ==> err == osResult
  {
    ReaderClose(z.data, osResult)
  }

  // ---------------------------------------------------------------------
  // Substring containment (Go's `strings.Contains`)

  /** `sub` occurs in `s` starting at position `i`. */
  predicate OccursAt(s: string, sub: string, i: nat) {
    i <= |s| - |sub| && s[i..i + |sub|] == sub
  }

  /** `sub` occurs in `s` at some position; the empty fragment occurs in every name. */
  predicate Contains(s: string, sub: string): (b: bool)
    ensures b ==> |sub| <= |s|
  {
    exists i: nat | i <= |s| :: OccursAt(s, sub, i)
  }

  lemma ContainsEmpty(s: string)
    ensures Contains(s, [])
  {
    assert OccursAt(s, [], 0);
  }

  lemma ContainsItself(s: string)
    ensures Contains(s, s)
  {
    assert OccursAt(s, s, 0);
  }

  // ---------------------------------------------------------------------
  // Exact-name lookup: specification

  /** Position of the first entry named exactly `name`, or `|fs|` when there is none. */
  function IndexOfName(fs: seq<Entry>, name: string): (k: nat)
    ensures k <= |fs|
    ensures forall j :: 0 <= j < k ==> fs[j].name != name
    ensures k < |fs| ==> fs[k].name == name
  {
    if fs == [] then 0
    else if fs[0].name == name then 0
    else 1 + IndexOfName(fs[1..], name)
  }

  /** No entry is named `name` exactly when the first-match index runs off the end. */
  lemma IndexOfNameAbsent(fs: seq<Entry>, name: string)
    ensures IndexOfName(fs, name) == |fs| <==> forall j :: 0 <= j < |fs| ==> fs[j].name != name
  {
  }

  // ---------------------------------------------------------------------
  // Substring selection: specification

  /** The entries of `fs` whose names contain `sub`, in container order. */
  function Matching(fs: seq<Entry>, sub: string): (r: seq<Entry>)
    ensures |r| <= |fs|
  {
    if fs == [] then []
    else
      var init := Matching(fs[..|fs| - 1], sub);
      if Contains(fs[|fs| - 1].name, sub) then init + [fs[|fs| - 1]] else init
  }

  /** `sel` is `fs` restricted to the increasing positions `idx`, and `idx`
      holds exactly the positions whose entry name contains `sub`. */
  ghost predicate IsSelection(sel: seq<Entry>, fs: seq<Entry>, sub: string, idx: seq<nat>) {
    && |idx| == |sel|
    && (forall k :: 0 <= k < |idx| ==> idx[k] < |fs| && sel[k] == fs[idx[k]])
    && (forall k, l :: 0 <= k < l < |idx| ==> idx[k] < idx[l])
    && (forall i :: 0 <= i < |fs| ==> (Contains(fs[i].name, sub) <==> i in idx))
  }

  /** Appending one entry to the container extends a selection by that entry
      exactly when its name contains the fragment. */
  lemma SelectionSnoc(sel: seq<Entry>, init: seq<Entry>, x: Entry, sub: string, idx: seq<nat>)
    requires IsSelection(sel, init, sub, idx)
    ensures Contains(x.name, sub) ==> IsSelection(sel + [x], init + [x], sub, idx + [|init|])
    ensures !Contains(x.name, sub) ==> IsSelection(sel, init + [x], sub, idx)
  {
    var fs, n := init + [x], |init|;
    assert forall k :: 0 <= k < |idx| ==> idx[k] < n && fs[idx[k]] == init[idx[k]];
    assert forall i :: 0 <= i < n ==> fs[i] == init[i];
    if Contains(x.name, sub) {
      var idx' := idx + [n];
      forall i | 0 <= i < |fs|
        ensures Contains(fs[i].name, sub) <==> i in idx'
      {
        if i < n {
          assert i in idx' <==> i in idx;
        } else {
          assert idx'[|idx|] == i;
        }
      }
    } else {
      forall i | 0 <= i < |fs|
        ensures Contains(fs[i].name, sub) <==> i in idx
      {
        if i == n {
          assert i !in idx;
        }
      }
    }
  }

  /** The selection is a subsequence of the container in container order, and
      it keeps every matching entry and no other (sound and complete). */
  lemma {:induction false} MatchingIsSelection(fs: seq<Entry>, sub: string)
    ensures exists idx: seq<nat> :: IsSelection(Matching(fs, sub), fs, sub, idx)
  {
    if fs == [] {
      var none: seq<nat> := [];
      assert IsSelection(Matching(fs, sub), fs, sub, none);
    } else {
      var n := |fs| - 1;
      var init := fs[..n];
      MatchingIsSelection(init, sub);
      var idx: seq<nat> :| IsSelection(Matching(init, sub), init, sub, idx);
      SelectionSnoc(Matching(init, sub), init, fs[n], sub, idx);
      assert init + [fs[n]] == fs;
      if Contains(fs[n].name, sub) {
        assert IsSelection(Matching(fs, sub), fs, sub, idx + [n]);
      } else {
        assert IsSelection(Matching(fs, sub), fs, sub, idx);
      }
    }
  }

  /** Soundness: every selected entry's name contains the fragment. */
  lemma {:induction false} MatchingSound(fs: seq<Entry>, sub: string)
    ensures forall e :: e in Matching(fs, sub) ==> Contains(e.name, sub)
  {
    if fs != [] {
      MatchingSound(fs[..|fs| - 1], sub);
    }
  }

  /** Completeness: every entry whose name contains the fragment is selected. */
  lemma {:induction false} MatchingComplete(fs: seq<Entry>, sub: string)
    ensures forall i :: 0 <= i < |fs| && Contains(fs[i].name, sub) ==> fs[i] in Matching(fs, sub)
  {
    if fs != [] {
      var n := |fs| - 1;
      MatchingComplete(fs[..n], sub);
      assert forall i :: 0 <= i < n ==> fs[i] == fs[..n][i];
    }
  }

  /** The selection is empty exactly when no entry name contains the fragment. */
  lemma MatchingEmpty(fs: seq<Entry>, sub: string)
    ensures Matching(fs, sub) == [] <==> forall i :: 0 <= i < |fs| ==> !Contains(fs[i].name, sub)
  {
    MatchingSound(fs, sub);
    MatchingComplete(fs, sub);
    if Matching(fs, sub) != [] {
      assert Matching(fs, sub)[0] in Matching(fs, sub);
    }
  }

  /** With the empty fragment every entry is selected, so the selection is the whole container. */
  lemma {:induction false} MatchingEmptyFragment(fs: seq<Entry>)
    ensures Matching(fs, []) == fs
  {
    if fs != [] {
      var n := |fs| - 1;
      MatchingEmptyFragment(fs[..n]);
      ContainsEmpty(fs[n].name);
      assert fs[..n] + [fs[n]] == fs;
    }
  }

  /** An entry found by exact name is also among the entries selected by that name as fragment. */
  lemma ExactMatchIsSelected(fs: seq<Entry>, name: string)
    requires IndexOfName(fs, name) < |fs|
    ensures fs[IndexOfName(fs, name)] in Matching(fs, name)
  {
    ContainsItself(name);
    MatchingComplete(fs, name);
  }

  // ---------------------------------------------------------------------
  // The lookups

  /** `ZipFile.FileByName`: scan the entries in order and stop at the first one
      named exactly `name`; report `FileNotFound` when the scan finds none. */
  method FileByName(z: ZipFile, name: string) returns (file: Option<Entry>, err: Option<Error>)
    ensures IndexOfName(Files(z), name) < |Files(z)| ==>
              file == Some(Files(z)[IndexOfName(Files(z), name)]) && err == None
    ensures file.None? <==> forall j :: 0 <= j < |Files(z)| ==> Files(z)[j].name != name
    ensures file.Some? ==> file.value.name == name && err == None
    ensures file.None? ==> err == Some(FileNotFound(name))
  {
    var fs := z.data.file;
    file := None;
    var i := 0;
    while i < |fs|
      invariant 0 <= i <= |fs|
      invariant file == None
      invariant forall j :: 0 <= j < i ==> fs[j].name != name
    {
      if fs[i].name == name {
        file := Some(fs[i]);
        break;
      }
      i := i + 1;
    }
    assert file.Some? ==> i < |fs| && file == Some(fs[i]) && i == IndexOfName(fs, name);
    err := None;
    if file == None {
      err := Some(FileNotFound(name));
    }
  }

  /** `ZipFile.FilesByName`: collect, in container order, every entry whose name
      contains `substring`; an empty collection is reported as `NoFileContaining`. */
  method FilesByName(z: ZipFile, substring: string) returns (files: seq<Entry>, err: Option<Error>)
    ensures files == Matching(Files(z), substring)
    ensures err.Some? <==> files == []
    ensures err.Some? ==> err == Some(NoFileContaining(substring))
  {
    var fs := z.data.file;
    files := [];
    var i := 0;
    while i < |fs|
      invariant 0 <= i <= |fs|
      invariant files == Matching(fs[..i], substring)
    {
      assert fs[..i + 1][..i] == fs[..i];
      if Contains(fs[i].name, substring) {
        files := files + [fs[i]];
      }
      i := i + 1;
    }
    assert fs[..|fs|] == fs;
    err := None;
    if |files| == 0 {
      err := Some(NoFileContaining(substring));
    }
  }
}
