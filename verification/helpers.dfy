/**
 The remote-change test of the helpers module: given the whitespace-separated
 list of files a diff touched and the set of files the caller cares about,
 report whether any of those files changed.
 */
module Helpers {
  import opened Text

  /** The files named in a diff listing, as a set. */
  function ChangedFiles(diff: string): set<string> {
    set t | t in Split(diff)
  }

  /** `files_changed(diff, file_set)`: some file named in `diff` is one of
      the files of interest. */
  function FilesChanged(diff: string, interest: set<string>): (changed: bool)
    ensures changed <==> exists k :: 0 <= k < |Split(diff)| && Split(diff)[k] in interest
  {
    var both := ChangedFiles(diff) * interest;
    if both == {} then
      var ts := Split(diff);
      assert forall k :: 0 <= k < |ts| && ts[k] in interest ==> ts[k] in both;
      false
    else
      var t :| t in both;
      assert t in Split(diff);
      true
  }

  /** On a listing of file names separated by runs of whitespace (spaces,
      tabs, newlines), with any whitespace before and after, the predicate
      holds exactly when one of those names is of interest. */
  lemma FilesChangedOnListing(lead: string, sep: string, files: seq<string>, trail: string, interest: set<string>)
    requires AllSpace(lead) && AllSpace(trail)
    requires |sep| > 0 && AllSpace(sep)
    requires forall k :: 0 <= k < |files| ==> IsWord(files[k])
    ensures FilesChanged(lead + JoinWith(sep, files) + trail, interest) <==>
            exists k :: 0 <= k < |files| && files[k] in interest
  {
    SplitListing(lead, sep, files, trail);
  }

  /** The files of interest `set("abcdefg")` of the remote-diff test. */
  function FirstSevenLetters(): set<string> {
    {"a", "b", "c", "d", "e", "f", "g"}
  }

  /** The listing `"a c k p"` of the remote-diff test names a file of interest. */
  lemma RemoteDiffChanged()
    ensures FilesChanged("a c k p", FirstSevenLetters())
  {
    var files := ["a", "c", "k", "p"];
    assert JoinWith(" ", files[3..]) == "p";
    assert JoinWith(" ", files[2..]) == "k p";
    assert JoinWith(" ", files[1..]) == "c k p";
    assert JoinWith(" ", files) == "a c k p";
    FilesChangedOnListing("", " ", files, "", FirstSevenLetters());
    assert "" + JoinWith(" ", files) + "" == JoinWith(" ", files);
    assert files[0] in FirstSevenLetters();
  }

  /** The listing `"h j q t"` of the remote-diff test names none. */
  lemma RemoteDiffUnchanged()
    ensures !FilesChanged("h j q t", FirstSevenLetters())
  {
    var files := ["h", "j", "q", "t"];
    assert JoinWith(" ", files[3..]) == "t";
    assert JoinWith(" ", files[2..]) == "q t";
    assert JoinWith(" ", files[1..]) == "j q t";
    assert JoinWith(" ", files) == "h j q t";
    FilesChangedOnListing("", " ", files, "", FirstSevenLetters());
    assert "" + JoinWith(" ", files) + "" == JoinWith(" ", files);
    forall k | 0 <= k < |files|
      ensures files[k] !in FirstSevenLetters()
    {
      assert files[k][0] in "hjqt";
    }
  }
}
