/**
 pkg/building/boards.go and pkg/building/catalog.go: which posts of a thread a board page shows,
 what it counts as omitted, and how the threads are divided into pages.
 */
module BoardPages {
  import opened Arithmetic
  import opened Wrappers

  datatype Post = Post(id: int)
  datatype Upload = Upload(postID: int)

  /** The counts of `catalogThreadData` that the loop of `BuildBoardPages` fills in. */
  datatype CatalogThread = CatalogThread(posts: seq<Post>, replies: nat, omittedPosts: int, omittedImages: int)

  ghost predicate Ascending(posts: seq<Post>) {
    forall i, j :: 0 <= i < j < |posts| ==> posts[i].id < posts[j].id
  }

  /** How many of the uploads belong to one of the posts. */
  function UploadsOn(uploads: seq<Upload>, posts: seq<Post>): nat {
    if |uploads| == 0 then 0
    else UploadsOn(uploads[..|uploads| - 1], posts) + if Post(uploads[|uploads| - 1].postID) in posts then 1 else 0
  }

  /** How many of the uploads belong to none of the posts. */
  function UploadsOff(uploads: seq<Upload>, posts: seq<Post>): nat {
    if |uploads| == 0 then 0
    else UploadsOff(uploads[..|uploads| - 1], posts) + if Post(uploads[|uploads| - 1].postID) in posts then 0 else 1
  }

  lemma {:induction false} OnAndOff(uploads: seq<Upload>, posts: seq<Post>)
    ensures UploadsOn(uploads, posts) + UploadsOff(uploads, posts) == |uploads|
    ensures (forall i :: 0 <= i < |uploads| ==> Post(uploads[i].postID) in posts) ==> UploadsOff(uploads, posts) == 0
  {
    if |uploads| > 0 {
      OnAndOff(uploads[..|uploads| - 1], posts);
    }
  }

  lemma {:induction false} UploadsCounted(uploads: seq<Upload>, posts: seq<Post>)
    ensures UploadsOn(uploads, posts) == |set i | 0 <= i < |uploads| && Post(uploads[i].postID) in posts|
  {
    if |uploads| > 0 {
      var last := |uploads| - 1;
      UploadsCounted(uploads[..last], posts);
      var before := set i | 0 <= i < last && Post(uploads[..last][i].postID) in posts;
      var all := set i | 0 <= i < |uploads| && Post(uploads[i].postID) in posts;
      assert all == before + if Post(uploads[last].postID) in posts then {last} else {};
    }
  }

  /** The posts of a thread shown on its board page: the first one and the newest `limit` replies. */
  ghost predicate IsShown(posts: seq<Post>, limit: nat, shown: seq<Post>) {
    var replies := |posts| - 1;
    var newest := if replies < limit then replies else limit;
    |posts| > 0 && shown == [posts[0]] + posts[|posts| - newest..]
  }

  /** The nested counting loops of `BuildBoardPages`. */
  method CountImages(uploads: seq<Upload>, shown: seq<Post>) returns (imagesOnBoardPage: nat)
    ensures Ascending(shown) ==> imagesOnBoardPage == UploadsOn(uploads, shown)
  {
    imagesOnBoardPage := 0;
    for i := 0 to |uploads|
      invariant Ascending(shown) ==> imagesOnBoardPage == UploadsOn(uploads[..i], shown)
    {
      assert uploads[..i + 1][..i] == uploads[..i];
      var before := imagesOnBoardPage;
      for j := 0 to |shown|
        invariant Ascending(shown) ==>
                    imagesOnBoardPage == before + if Post(uploads[i].postID) in shown[..j] then 1 else 0
      {
        assert shown[..j + 1] == shown[..j] + [shown[j]];
        if shown[j].id == uploads[i].postID {
          imagesOnBoardPage := imagesOnBoardPage + 1;
        }
      }
      assert shown[..|shown|] == shown;
    }
    assert uploads[..|uploads|] == uploads;
  }

  /**
   One round of the loop over the threads of a board; a thread without posts is skipped. Given
   the posts in order of their ids, a reply count that fits them and uploads of these posts, the
   page shows the first post and the newest replies, and counts as omitted exactly the posts not
   shown and the uploads on them, with any limit, 0 included.
   */
  method PageThread(posts: seq<Post>, uploads: seq<Upload>, replies: nat, maxReplies: nat)
    returns (r: Option<CatalogThread>)
    ensures r.None? <==> |posts| == 0
    ensures r.Some? ==> r.value.replies == replies && IsShown(posts, maxReplies, r.value.posts)
    ensures r.Some? && Ascending(posts) && replies == |posts| - 1
            && (forall i :: 0 <= i < |uploads| ==> Post(uploads[i].postID) in posts) ==>
              && Ascending(r.value.posts)
              && r.value.omittedPosts == |posts| - |r.value.posts|
              && r.value.omittedImages == UploadsOff(uploads, r.value.posts)
  {
    if |posts| == 0 {
      return None;
    }
    var shown := posts;
    if |posts| > maxReplies {
      var op := posts[0];
      var newest := posts[|posts| - maxReplies..];
      shown := [op];
      shown := shown + newest;
    }
    var imagesOnBoardPage := CountImages(uploads, shown);
    OnAndOff(uploads, shown);
    var omittedPosts, omittedImages := 0, 0;
    if replies > maxReplies {
      omittedPosts := replies - |shown| + 1;
      omittedImages := |uploads| - imagesOnBoardPage;
    }
    assert |posts| - 1 <= maxReplies ==> shown == posts;
    return Some(CatalogThread(shown, replies, omittedPosts, omittedImages));
  }

  // ---------------------------------------------------------------- pages

  datatype Page<T> = Page(pageNum: int, threads: seq<T>)

  /** The number of pages used for navigation. */
  function NumPages(numThreads: nat, threadsPerPage: nat): nat
    requires threadsPerPage > 0
  {
    numThreads / threadsPerPage + if numThreads % threadsPerPage > 0 then 1 else 0
  }

  function Concat<T>(pages: seq<Page<T>>): seq<T> {
    if |pages| == 0 then [] else Concat(pages[..|pages| - 1]) + pages[|pages| - 1].threads
  }

  /** Pages that hold the threads in order, each of them full except that the last may be short, none empty. */
  ghost predicate Paginates<T>(pages: seq<Page<T>>, threads: seq<T>, threadsPerPage: nat) {
    && Concat(pages) == threads
    && (forall k :: 0 <= k < |pages| - 1 ==> |pages[k].threads| == threadsPerPage)
    && (forall k :: 0 <= k < |pages| ==> 0 < |pages[k].threads| <= threadsPerPage)
  }

  class BoardCatalog<T> {
    var pages: seq<Page<T>>
    var numPages: nat

    constructor ()
      ensures pages == []
    {
      pages, numPages := [], 0;
    }

    /** `fillPages`; the short last page repeats the number of the page before it. */
    method FillPages(threadsPerPage: nat, threads: seq<T>)
      requires threadsPerPage > 0
      modifies this
      ensures Paginates(pages, threads, threadsPerPage)
      ensures numPages == |threads| / threadsPerPage
      ensures forall k :: 0 <= k < |pages| ==>
                pages[k].pageNum == if k < numPages || k == 0 then k + 1 else k
    {
      pages := [];
      var fullPages, remainder := DivMod(|threads|, threadsPerPage);
      numPages := fullPages;
      var currentThreadIndex := 0;
      var i := 0;
      for n := 0 to fullPages
        invariant currentThreadIndex == n * threadsPerPage && |pages| == n
        invariant numPages == fullPages && i == (if n == 0 then 0 else n - 1)
        invariant FullPages(pages, threads, threadsPerPage, currentThreadIndex)
      {
        i := n;
        assert currentThreadIndex + threadsPerPage == (n + 1) * threadsPerPage <= |threads| by {
          NextMultiple(n, fullPages, threadsPerPage);
        }
        AppendFull(pages, threads, threadsPerPage, currentThreadIndex);
        pages := pages + [Page(i + 1, threads[currentThreadIndex..currentThreadIndex + threadsPerPage])];
        currentThreadIndex := currentThreadIndex + threadsPerPage;
      }
      if remainder > 0 {
        AppendLast(pages, threads, threadsPerPage, currentThreadIndex, i + 1);
        pages := pages + [Page(i + 1, threads[|threads| - remainder..])];
      } else {
        assert threads[..|threads|] == threads;
      }
    }
  }

  /** Full pages, numbered from 1, that hold the first threads. */
  ghost predicate FullPages<T>(pages: seq<Page<T>>, threads: seq<T>, threadsPerPage: nat, upTo: nat) {
    && upTo <= |threads| && Concat(pages) == threads[..upTo]
    && forall k :: 0 <= k < |pages| ==> |pages[k].threads| == threadsPerPage && pages[k].pageNum == k + 1
  }

  lemma ConcatAppend<T>(pages: seq<Page<T>>, page: Page<T>)
    ensures Concat(pages + [page]) == Concat(pages) + page.threads
  {
    assert (pages + [page])[..|pages|] == pages;
  }

  lemma AppendFull<T>(pages: seq<Page<T>>, threads: seq<T>, threadsPerPage: nat, upTo: nat)
    requires FullPages(pages, threads, threadsPerPage, upTo) && upTo + threadsPerPage <= |threads|
    ensures var page := Page(|pages| + 1, threads[upTo..upTo + threadsPerPage]);
            FullPages(pages + [page], threads, threadsPerPage, upTo + threadsPerPage)
  {
    ConcatAppend(pages, Page(|pages| + 1, threads[upTo..upTo + threadsPerPage]));
    assert threads[..upTo] + threads[upTo..upTo + threadsPerPage] == threads[..upTo + threadsPerPage];
  }

  lemma AppendLast<T>(pages: seq<Page<T>>, threads: seq<T>, threadsPerPage: nat, upTo: nat, pageNum: int)
    requires FullPages(pages, threads, threadsPerPage, upTo) && 0 < |threads| - upTo <= threadsPerPage
    ensures Paginates(pages + [Page(pageNum, threads[upTo..])], threads, threadsPerPage)
  {
    ConcatAppend(pages, Page(pageNum, threads[upTo..]));
    assert threads[..upTo] + threads[upTo..] == threads;
  }

  lemma {:induction false} ConcatSize<T>(pages: seq<Page<T>>, threads: seq<T>, threadsPerPage: nat)
    requires threadsPerPage > 0 && Paginates(pages, threads, threadsPerPage) && |pages| > 0
    ensures |threads| == (|pages| - 1) * threadsPerPage + |pages[|pages| - 1].threads|
  {
    var front := pages[..|pages| - 1];
    if |front| == 0 {
      assert Concat(front) == [];
    } else {
      ConcatSize(front, Concat(front), threadsPerPage);
      assert |front[|front| - 1].threads| == threadsPerPage;
    }
  }

  /** Every thread is on the page and at the place that dividing its position gives. */
  lemma {:induction false} ThreadInPlace<T>(pages: seq<Page<T>>, threads: seq<T>, threadsPerPage: nat, page: nat,
      place: nat)
    requires threadsPerPage > 0 && Paginates(pages, threads, threadsPerPage)
    requires page < |pages| && place < |pages[page].threads|
    ensures page * threadsPerPage + place < |threads|
    ensures threads[page * threadsPerPage + place] == pages[page].threads[place]
  {
    var last := |pages| - 1;
    var front := pages[..last];
    ConcatSize(pages, threads, threadsPerPage);
    assert threads == Concat(front) + pages[last].threads;
    if page < last {
      ThreadInPlace(front, Concat(front), threadsPerPage, page, place);
    }
  }

  /** Any such division into pages has as many pages as the navigation counts for that many threads. */
  lemma PagesMatchNavigation<T>(pages: seq<Page<T>>, threads: seq<T>, threadsPerPage: nat)
    requires threadsPerPage > 0 && Paginates(pages, threads, threadsPerPage)
    ensures |pages| == NumPages(|threads|, threadsPerPage)
  {
    if |pages| > 0 {
      ConcatSize(pages, threads, threadsPerPage);
      var last := |pages[|pages| - 1].threads|;
      if last == threadsPerPage {
        QuotientUnique(|pages|, 0, threadsPerPage);
      } else {
        QuotientUnique(|pages| - 1, last, threadsPerPage);
      }
    }
  }
}
