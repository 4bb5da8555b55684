/** frontend-ts/components/race/RaceImageUpload.tsx: which dropped files are sent
    to the image upload endpoint. The files are examined in order; the walk stops
    at the first position whose index, added to the race's current image count,
    reaches the limit of five, and a file that is not an image or is over 5 MiB is
    skipped with a notice but still uses up its position. */
module RaceImageUpload {
  import opened Common
  import opened Text

  /** A dropped file: its MIME type and its size in bytes. */
  datatype ImageFile = ImageFile(mimeType: string, size: int)

  const ImageLimit: int := 5
  const MaxImageBytes: int := 5 * 1024 * 1024

  const LimitNotice: string := "이미지는 최대 5장까지 업로드할 수 있습니다"
  const TypeNotice: string := "이미지 파일만 업로드할 수 있습니다"
  const SizeNotice: string := "파일 크기는 5MB 이하여야 합니다"
  const FailNotice: string := "이미지 업로드에 실패했습니다"

  /** `file.type.startsWith("image/")`. */
  predicate IsImage(f: ImageFile)
  {
    StartsWith(f.mimeType, "image/")
  }

  /** A file that is an image and at most 5 MiB. */
  predicate Admissible(f: ImageFile)
  {
    IsImage(f) && f.size <= MaxImageBytes
  }

  /** How many of n files the loop looks at when the race already has count
      images: every position i below it has count + i under the limit, and when it
      is short of n the next position reaches the limit. */
  function Examined(count: int, n: nat): (k: nat)
    ensures k <= n
    ensures k <= if count >= ImageLimit then 0 else ImageLimit - count
    ensures k > 0 ==> count + k <= ImageLimit
    ensures k < n ==> count + k >= ImageLimit
  {
    if count >= ImageLimit then 0
    else if n <= ImageLimit - count then n
    else ImageLimit - count
  }

  /** The files of s that pass both checks, in their order. */
  function Admitted(s: seq<ImageFile>): (r: seq<ImageFile>)
    ensures |r| <= |s|
  {
    if s == [] then []
    else Admitted(s[..|s| - 1]) + (if Admissible(s[|s| - 1]) then [s[|s| - 1]] else [])
  }

  /** The notices the file at position i produces: the type check first, then the
      size check, then a failed upload. */
  function NoticeFor(f: ImageFile, uploaded: bool): (r: seq<string>)
    ensures r == [] <==> Admissible(f) && uploaded
  {
    if !IsImage(f) then [TypeNotice]
    else if f.size > MaxImageBytes then [SizeNotice]
    else if !uploaded then [FailNotice]
    else []
  }

  /** The notices of the first k files; uploadOk(i) is whether the endpoint accepts
      the file at position i. */
  function Notices(files: seq<ImageFile>, uploadOk: nat -> bool, k: nat): (r: seq<string>)
    requires k <= |files|
    ensures |r| <= k
  {
    if k == 0 then [] else Notices(files, uploadOk, k - 1) + NoticeFor(files[k - 1], uploadOk(k - 1))
  }

  /** How many uploads among the first k files succeed, each one refreshing the
      image list. */
  function Refreshes(files: seq<ImageFile>, uploadOk: nat -> bool, k: nat): (n: nat)
    requires k <= |files|
    ensures n <= k
  {
    if k == 0 then 0
    else Refreshes(files, uploadOk, k - 1) + (if Admissible(files[k - 1]) && uploadOk(k - 1) then 1 else 0)
  }

  /** A file is sent exactly when it is one of the files and passes both checks. */
  lemma {:induction false} AdmittedMembership(s: seq<ImageFile>, f: ImageFile)
    ensures f in Admitted(s) <==> f in s && Admissible(f)
  {
    if s != [] {
      var init := s[..|s| - 1];
      AdmittedMembership(init, f);
      assert s == init + [s[|s| - 1]];
    }
  }

  /** The upload never takes a race past five images: the files sent number at
      most what is left of the limit. */
  lemma SentWithinLimit(count: int, files: seq<ImageFile>)
    ensures var sent := Admitted(files[..Examined(count, |files|)]);
      |sent| <= if count >= ImageLimit then 0 else ImageLimit - count
  {
  }

  /** When every file passes and there is room for all of them, all are sent in
      the order dropped. */
  lemma {:induction false} AllAdmissibleAllSent(count: int, files: seq<ImageFile>)
    requires forall i :: 0 <= i < |files| ==> Admissible(files[i])
    requires count + |files| <= ImageLimit
    ensures Examined(count, |files|) == |files|
    ensures Admitted(files[..Examined(count, |files|)]) == files
  {
    AdmittedOfAdmissible(files);
    assert files[..|files|] == files;
  }

  lemma {:induction false} AdmittedOfAdmissible(s: seq<ImageFile>)
    requires forall i :: 0 <= i < |s| ==> Admissible(s[i])
    ensures Admitted(s) == s
  {
    if s != [] {
      AdmittedOfAdmissible(s[..|s| - 1]);
    }
  }

  /** One more file adds its notices and its refresh. */
  lemma TotalsStep(files: seq<ImageFile>, uploadOk: nat -> bool, i: nat)
    requires i < |files|
    ensures Admitted(files[..i + 1]) == Admitted(files[..i]) + (if Admissible(files[i]) then [files[i]] else [])
    ensures Notices(files, uploadOk, i + 1) == Notices(files, uploadOk, i) + NoticeFor(files[i], uploadOk(i))
    ensures Refreshes(files, uploadOk, i + 1) == Refreshes(files, uploadOk, i) + (if Admissible(files[i]) && uploadOk(i) then 1 else 0)
  {
    assert files[..i + 1][..i] == files[..i];
  }

  /** The drop zone's state: whether an upload is in flight. */
  class DropZone {
    var uploading: bool

    constructor ()
      ensures !uploading
    {
      uploading := false;
    }

    /** One file of the walk: the type check, then the size check, then the upload
        with the busy flag set around it. */
    method HandleOne(f: ImageFile, ok: bool) returns (sent: seq<ImageFile>, notices: seq<string>, refreshes: nat)
      modifies this
      ensures sent == if Admissible(f) then [f] else []
      ensures notices == NoticeFor(f, ok)
      ensures refreshes == if Admissible(f) && ok then 1 else 0
      ensures uploading == if Admissible(f) then false else old(uploading)
    {
      sent, notices, refreshes := [], [], 0;
      if !IsImage(f) {
        notices := [TypeNotice];
        return;
      }
      if f.size > MaxImageBytes {
        notices := [SizeNotice];
        return;
      }
      uploading := true;
      sent := [f];
      if ok {
        refreshes := 1;
      } else {
        notices := [FailNotice];
      }
      uploading := false;
    }

    /** handleFiles: with no file list nothing happens; otherwise the examined files
        that pass both checks are sent in order (sent), every skipped or failed file
        and a stop at the limit leave a notice, every successful upload refreshes
        the image list once, and the busy flag is set around each upload and cleared
        after it. */
    method HandleFiles(files: Option<seq<ImageFile>>, imageCount: int, uploadOk: nat -> bool)
      returns (sent: seq<ImageFile>, notices: seq<string>, refreshes: nat)
      modifies this
      ensures files.None? ==> sent == [] && notices == [] && refreshes == 0 && uploading == old(uploading)
      ensures files.Some? ==>
        var k := Examined(imageCount, |files.value|);
        && sent == Admitted(files.value[..k])
        && notices == Notices(files.value, uploadOk, k) + (if k < |files.value| then [LimitNotice] else [])
        && refreshes == Refreshes(files.value, uploadOk, k)
      ensures uploading == if sent == [] then old(uploading) else false
    {
      sent, notices, refreshes := [], [], 0;
      if files.None? {
        return;
      }
      var fs := files.value;
      var i := 0;
      while i < |fs|
        invariant 0 <= i <= Examined(imageCount, |fs|)
        invariant sent == Admitted(fs[..i])
        invariant notices == Notices(fs, uploadOk, i)
        invariant refreshes == Refreshes(fs, uploadOk, i)
        invariant uploading == if sent == [] then old(uploading) else false
      {
        if imageCount + i >= ImageLimit {
          notices := notices + [LimitNotice];
          break;
        }
        TotalsStep(fs, uploadOk, i);
        var s, n, r := HandleOne(fs[i], uploadOk(i));
        sent, notices, refreshes := sent + s, notices + n, refreshes + r;
        i := i + 1;
      }
      assert fs[..|fs|] == fs;
    }
  }
}
