/** The media attacher: up to three requests to the image service, then, if a
    URL came back, download, save, upload and clean up; any failure there
    leaves the thread without media. */
module Media {
  import opened Wrappers

  /** How many times the image service is asked at most. */
  const MaxImageAttempts: nat := 3

  /** The answer to one image request: the URL field of the first image (the
      client may leave it empty), or an exception. */
  datatype ImageOutcome = Generated(url: Option<string>) | ImageError

  /** The first of the first `n` attempts that produced an image, if any. */
  function FirstGenerated(attempts: seq<ImageOutcome>, n: nat): (r: Option<nat>)
    requires n <= |attempts|
    ensures r.Some? ==>
      r.value < n && attempts[r.value].Generated? &&
      forall j :: 0 <= j < r.value ==> attempts[j].ImageError?
    ensures r.None? ==> forall j :: 0 <= j < n ==> attempts[j].ImageError?
  {
    if n == 0 then None
    else
      match FirstGenerated(attempts, n - 1)
      case Some(k) => Some(k)
      case None => if attempts[n - 1].Generated? then Some(n - 1) else None
  }

  /** Looking further does not change a first success that was already found
      in fewer attempts. */
  lemma {:induction false} FirstGeneratedStable(attempts: seq<ImageOutcome>, k: nat, n: nat)
    requires k < n <= |attempts|
    requires FirstGenerated(attempts, k) == None && attempts[k].Generated?
    ensures FirstGenerated(attempts, n) == Some(k)
  {
    if n > k + 1 {
      FirstGeneratedStable(attempts, k, n - 1);
    }
  }

  /** What `generate_image` did, given the service's answers, measured by
      what it returned, how many requests it made and how often it slept:
      it stops at the first image and returns its URL; after three errors it
      returns nothing; it sleeps once between consecutive attempts and never
      after the last one. */
  predicate RetriedImage(attempts: seq<ImageOutcome>, url: Option<string>, calls: nat, sleeps: nat)
    requires |attempts| >= MaxImageAttempts
  {
    1 <= calls <= MaxImageAttempts && sleeps + 1 == calls &&
    match FirstGenerated(attempts, MaxImageAttempts)
    case Some(k) => calls == k + 1 && url == attempts[k].url
    case None => calls == MaxImageAttempts && url == None
  }

  /** `generate_image`: the service's answers are given in order of the
      requests; the count of sleeps stands for the 3-second pauses. */
  method GenerateImage(attempts: seq<ImageOutcome>) returns (url: Option<string>, calls: nat, sleeps: nat)
    requires |attempts| >= MaxImageAttempts
    ensures RetriedImage(attempts, url, calls, sleeps)
  {
    calls, sleeps := 0, 0;
    for i := 0 to MaxImageAttempts
      invariant calls == i && sleeps == i
      invariant FirstGenerated(attempts, i) == None
      invariant i < MaxImageAttempts
    {
      calls := calls + 1;
      match attempts[i]
      case Generated(u) =>
        FirstGeneratedStable(attempts, i, MaxImageAttempts);
        return u, calls, sleeps;
      case ImageError =>
        if i == MaxImageAttempts - 1 {
          return None, calls, sleeps;
        }
        sleeps := sleeps + 1;
    }
    // The last failed attempt returns from inside the loop, so the final
    // `return None` after it is never reached.
    assert false;
  }

  /** A URL is used only when it is truthy: present and not empty. */
  predicate UrlObtained(url: Option<string>) {
    url.Some? && url.value != []
  }

  /** How each step after a URL was obtained went: the download, writing the
      temporary file, the upload (with the media id it returned) and removing
      the temporary file. */
  datatype MediaSteps = MediaSteps(fetched: bool, saved: bool, upload: Option<string>, removed: bool)

  /** The media id the first post carries: none unless a URL was obtained and
      every step of the download-and-upload block went through; the removal of
      the temporary file is inside that block, so a failed removal also drops
      the id already obtained. */
  function AttachMedia(imageUrl: Option<string>, steps: MediaSteps): (mediaId: Option<string>)
    ensures mediaId.Some? <==>
      UrlObtained(imageUrl) && steps.fetched && steps.saved && steps.upload.Some? && steps.removed
    ensures mediaId.Some? ==> mediaId == steps.upload
  {
    if !UrlObtained(imageUrl) then None
    else if !steps.fetched || !steps.saved then None
    else
      match steps.upload
      case None => None
      case Some(id) => if steps.removed then Some(id) else None
  }

  /** Media is best effort: when all three image requests fail, the image step
      returns nothing after three requests and two pauses, and the thread
      goes out without media whatever the later steps would have done. */
  lemma {:induction false} ImageFailuresGiveNoMedia(attempts: seq<ImageOutcome>, url: Option<string>, calls: nat,
                                 sleeps: nat, steps: MediaSteps)
    requires |attempts| >= MaxImageAttempts
    requires forall j :: 0 <= j < MaxImageAttempts ==> attempts[j].ImageError?
    requires RetriedImage(attempts, url, calls, sleeps)
    ensures url == None && calls == MaxImageAttempts && sleeps == MaxImageAttempts - 1
    ensures AttachMedia(url, steps) == None
  {
  }
}
