/**
 The profile page's calls: listing the files an address has uploaded, and deleting one.
 */
module Profile {
  import opened Remote

  /** One row of the listing; `timeMs` is milliseconds since the epoch. */
  datatype FileRecord = FileRecord(timeMs: int, name: string, url: string, showProgress: bool)

  const MillisPerSecond: nat := 1000

  /** The name column of a listing. */
  function Names(files: seq<FileRecord>): (r: seq<string>)
    ensures |r| == |files|
  {
    seq(|files|, k requires 0 <= k < |files| => files[k].name)
  }

  /** The url column of a listing. */
  function Urls(files: seq<FileRecord>): (r: seq<string>)
    ensures |r| == |files|
  {
    seq(|files|, k requires 0 <= k < |files| => files[k].url)
  }

  /** The upload times of a listing, back in whole seconds. */
  function Seconds(files: seq<FileRecord>): (r: seq<int>)
    ensures |r| == |files|
  {
    seq(|files|, k requires 0 <= k < |files| => files[k].timeMs / MillisPerSecond)
  }

  /**
   `getUploadByAddress`: zips the three parallel arrays `getAuthorFiles` returns
   (upload times in seconds, names, urls) into records, one per url, in index order.
   The loop runs over the urls only and nothing checks the other two lengths, so
   the caller must supply at least as many times and names as urls.
   */
  method UploadsByAddress(times: seq<nat>, names: seq<string>, urls: seq<string>)
    returns (files: seq<FileRecord>)
    requires |urls| <= |times| && |urls| <= |names|
    ensures |files| == |urls|
    ensures forall i :: 0 <= i < |files| ==>
      && files[i].timeMs == times[i] * MillisPerSecond
      && files[i].name == names[i]
      && files[i].url == urls[i]
      && !files[i].showProgress
    // unzipping the listing gives back the arrays it was built from
    ensures Names(files) == names[..|urls|]
    ensures Urls(files) == urls
    ensures Seconds(files) == times[..|urls|]
  {
    files := [];
    var i := 0;
    while i < |urls|
      invariant 0 <= i <= |urls|
      invariant |files| == i
      invariant forall k :: 0 <= k < i ==>
        files[k] == FileRecord(times[k] * MillisPerSecond, names[k], urls[k], false)
    {
      files := files + [FileRecord(times[i] * MillisPerSecond, names[i], urls[i], false)];
      i := i + 1;
    }
  }

  /** What `deleteFile` gives its caller: the receipt's status, or the exception it lets through. */
  datatype DeleteReply = Returned(status: nat) | Raised

  /** `deleteFile`: submit `remove`, wait for it, and hand back `receipt.status` untouched. */
  function DeleteFile(removal: TxResult): (r: DeleteReply)
    ensures r.Raised? <==> removal.Threw?
    ensures r.Returned? ==> r.status == removal.receipt.status
  {
    match removal
    case Mined(receipt) => Returned(receipt.status)
    case Threw => Raised
  }

  /** The returned status is truthy exactly when the removal was confirmed; a rejection returns a falsy status without raising. */
  lemma DeleteReportsConfirmation(removal: TxResult)
    ensures DeleteFile(removal).Returned? && DeleteFile(removal).status != 0 <==> Confirmed(removal)
    ensures removal.Mined? && !Confirmed(removal) ==> DeleteFile(removal) == Returned(0)
  {
  }
}
