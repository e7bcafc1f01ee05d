/** The collection step of pkg/format/xml.go: select the section documents of an
    archive by name fragment and turn each into text, all or nothing. */
module Format {
  import opened Errors
  import opened Archive

  // ---------------------------------------------------------------------
  // Specification

  /** Reading one entry: open a decompression stream (`element.Open()`), then
      turn the stream into text (`XmlFileToString`). Both steps are foreign
      code, given as `open` and `toText`; either may fail. */
  function ReadEntry<S>(open: Entry -> Result<S>, toText: S -> Result<string>, e: Entry): (r: Result<string>)
    ensures open(e).Err? ==> r == Err(open(e).error)
    ensures open(e).Ok? ==> r == toText(open(e).value)
  {
    match open(e)
    case Err(cause) => Err(cause)
    case Ok(stream) => toText(stream)
  }

  /** Reading a list of entries in order, stopping at the first failure. */
  function ReadAll<S>(open: Entry -> Result<S>, toText: S -> Result<string>, fs: seq<Entry>): (r: Result<seq<string>>)
    ensures r.Ok? ==> |r.value| == |fs|
  {
    if fs == [] then Ok([])
    else
      match ReadEntry(open, toText, fs[0])
      case Err(cause) => Err(cause)
      case Ok(text) =>
        match ReadAll(open, toText, fs[1..])
        case Err(cause) => Err(cause)
        case Ok(texts) => Ok([text] + texts)
  }

  /** Entry `k` is the first of `fs` whose reading fails. */
  ghost predicate FailsFirstAt<S>(open: Entry -> Result<S>, toText: S -> Result<string>, fs: seq<Entry>, k: nat) {
    && k < |fs|
    && ReadEntry(open, toText, fs[k]).Err?
    && forall j :: 0 <= j < k ==> ReadEntry(open, toText, fs[j]).Ok?
  }

  /** Success: one text per entry, the i-th text being the i-th entry's; and
      that is the outcome exactly when every entry can be read. */
  lemma {:induction false} ReadAllSucceeds<S>(open: Entry -> Result<S>, toText: S -> Result<string>, fs: seq<Entry>, texts: seq<string>)
    ensures ReadAll(open, toText, fs) == Ok(texts) <==>
              |texts| == |fs| && forall i :: 0 <= i < |fs| ==> ReadEntry(open, toText, fs[i]) == Ok(texts[i])
  {
    if fs != [] && texts != [] {
      ReadAllSucceeds(open, toText, fs[1..], texts[1..]);
      assert forall i :: 1 <= i < |fs| ==> fs[i] == fs[1..][i - 1];
      assert forall i :: 1 <= i < |texts| ==> texts[i] == texts[1..][i - 1];
      assert [texts[0]] + texts[1..] == texts;
    }
  }

  /** Fail-fast: when entry `k` is the first that cannot be read, the whole
      read fails with that entry's error. */
  lemma {:induction false} ReadAllFailsAt<S>(open: Entry -> Result<S>, toText: S -> Result<string>, fs: seq<Entry>, k: nat)
    requires FailsFirstAt(open, toText, fs, k)
    ensures ReadAll(open, toText, fs) == Err(ReadEntry(open, toText, fs[k]).error)
  {
    if k > 0 {
      assert ReadEntry(open, toText, fs[0]).Ok?;
      assert forall j :: 0 <= j < k - 1 ==> fs[1..][j] == fs[j + 1];
      ReadAllFailsAt(open, toText, fs[1..], k - 1);
    }
  }

  /** Conversely, every failure is the error of the first unreadable entry. */
  lemma {:induction false} ReadAllFailureHasCause<S>(open: Entry -> Result<S>, toText: S -> Result<string>, fs: seq<Entry>)
    requires ReadAll(open, toText, fs).Err?
    ensures exists k: nat :: FailsFirstAt(open, toText, fs, k) &&
              ReadAll(open, toText, fs).error == ReadEntry(open, toText, fs[k]).error
  {
    if ReadEntry(open, toText, fs[0]).Err? {
      assert FailsFirstAt(open, toText, fs, 0);
    } else {
      ReadAllFailureHasCause(open, toText, fs[1..]);
      var k: nat :| FailsFirstAt(open, toText, fs[1..], k) &&
                    ReadAll(open, toText, fs[1..]).error == ReadEntry(open, toText, fs[1..][k]).error;
      forall j | 0 <= j < k + 1
        ensures ReadEntry(open, toText, fs[j]).Ok?
      {
        if j > 0 {
          assert fs[j] == fs[1..][j - 1];
        }
      }
      assert FailsFirstAt(open, toText, fs, k + 1);
    }
  }

  /** Entries after the first unreadable one play no part in the outcome:
      replacing them by anything else gives the same failure. */
  lemma ReadAllIgnoresRest<S>(open: Entry -> Result<S>, toText: S -> Result<string>, fs: seq<Entry>, k: nat, rest: seq<Entry>)
    requires FailsFirstAt(open, toText, fs, k)
    ensures ReadAll(open, toText, fs[..k + 1] + rest) == ReadAll(open, toText, fs)
  {
    var gs := fs[..k + 1] + rest;
    assert forall j :: 0 <= j <= k ==> gs[j] == fs[j];
    assert FailsFirstAt(open, toText, gs, k);
    ReadAllFailsAt(open, toText, gs, k);
    ReadAllFailsAt(open, toText, fs, k);
  }

  /** The texts `texts` are those of the entries of `fs` whose names contain
      `fragment`, one each, in container order: `idx` lists the matching
      positions in increasing order. */
  ghost predicate TextsOfMatching<S>(open: Entry -> Result<S>, toText: S -> Result<string>,
                                     texts: seq<string>, fs: seq<Entry>, fragment: string, idx: seq<nat>) {
    && |idx| == |texts|
    && (forall k :: 0 <= k < |idx| ==> idx[k] < |fs| && ReadEntry(open, toText, fs[idx[k]]) == Ok(texts[k]))
    && (forall k, l :: 0 <= k < l < |idx| ==> idx[k] < idx[l])
    && (forall i :: 0 <= i < |fs| ==> (Contains(fs[i].name, fragment) <==> i in idx))
  }

  /** A successful read of the selection yields one text per matching entry of
      the container, in container order. */
  lemma SelectedTextsInContainerOrder<S>(open: Entry -> Result<S>, toText: S -> Result<string>,
                                         fs: seq<Entry>, fragment: string, texts: seq<string>)
    requires ReadAll(open, toText, Matching(fs, fragment)) == Ok(texts)
    ensures exists idx: seq<nat> :: TextsOfMatching(open, toText, texts, fs, fragment, idx)
  {
    var sel := Matching(fs, fragment);
    MatchingIsSelection(fs, fragment);
    var idx: seq<nat> :| IsSelection(sel, fs, fragment, idx);
    ReadAllSucceeds(open, toText, sel, texts);
    assert TextsOfMatching(open, toText, texts, fs, fragment, idx);
  }

  // ---------------------------------------------------------------------
  // The operations

  /** `ReadTextFromXmls`: read every entry in order, appending its text; on the
      first failure return no texts and that failure. */
  method ReadTextFromXmls<S>(open: Entry -> Result<S>, toText: S -> Result<string>, xmlFiles: seq<Entry>)
    returns (texts: seq<string>, err: Option<Error>)
    ensures err.None? ==> ReadAll(open, toText, xmlFiles) == Ok(texts)
    ensures err.None? ==> |texts| == |xmlFiles|
    ensures err.None? ==> forall i :: 0 <= i < |xmlFiles| ==> ReadEntry(open, toText, xmlFiles[i]) == Ok(texts[i])
    ensures err.Some? ==> texts == [] && ReadAll(open, toText, xmlFiles) == Err(err.value)
    ensures xmlFiles == [] ==> texts == [] && err == None
  {
    var xmlText: seq<string> := [];
    var i := 0;
    while i < |xmlFiles|
      invariant 0 <= i <= |xmlFiles|
      invariant |xmlText| == i
      invariant forall j :: 0 <= j < i ==> ReadEntry(open, toText, xmlFiles[j]) == Ok(xmlText[j])
    {
      var element := xmlFiles[i];
      var documentReader := open(element);
      if documentReader.Err? {
        assert FailsFirstAt(open, toText, xmlFiles, i);
        ReadAllFailsAt(open, toText, xmlFiles, i);
        texts, err := [], Some(documentReader.error);
        return;
      }
      var text := toText(documentReader.value);
      if text.Err? {
        assert FailsFirstAt(open, toText, xmlFiles, i);
        ReadAllFailsAt(open, toText, xmlFiles, i);
        texts, err := [], Some(text.error);
        return;
      }
      xmlText := xmlText + [text.value];
      i := i + 1;
    }
    ReadAllSucceeds(open, toText, xmlFiles, xmlText);
    texts, err := xmlText, None;
  }

  /** `ReadXmls`: select the entries whose names contain `nameFragment`, then
      read them; a selection failure is passed on unchanged, and any failure
      comes with no texts. */
  method ReadXmls<S>(zipReader: ZipFile, nameFragment: string, open: Entry -> Result<S>, toText: S -> Result<string>)
    returns (xmlTexts: seq<string>, err: Option<Error>)
    ensures Matching(Files(zipReader), nameFragment) == [] ==>
              xmlTexts == [] && err == Some(NoFileContaining(nameFragment))
    ensures Matching(Files(zipReader), nameFragment) != [] ==>
              (err.None? <==> ReadAll(open, toText, Matching(Files(zipReader), nameFragment)).Ok?)
    ensures err.None? ==> ReadAll(open, toText, Matching(Files(zipReader), nameFragment)) == Ok(xmlTexts)
    ensures err.Some? && Matching(Files(zipReader), nameFragment) != [] ==>
              ReadAll(open, toText, Matching(Files(zipReader), nameFragment)) == Err(err.value)
    ensures err.None? ==> exists idx: seq<nat> ::
              TextsOfMatching(open, toText, xmlTexts, Files(zipReader), nameFragment, idx)
    ensures err.Some? ==> xmlTexts == []
  {
    var xmlFiles, selectErr := FilesByName(zipReader, nameFragment);
    if selectErr.Some? {
      return [], selectErr;
    }
    xmlTexts, err := ReadTextFromXmls(open, toText, xmlFiles);
    if err.Some? {
      return [], err;
    }
    SelectedTextsInContainerOrder(open, toText, Files(zipReader), nameFragment, xmlTexts);
  }
}
