/**
 * The incremental album loader of the albums page: the album list, with
 * the owner's static albums first, grows page by page as the scroller
 * nears the end of what was asked for. The page request is a parameter of
 * the load step; one load step is one atomic transition.
 */
module Albums {
  import opened Wrappers
  import opened GroupTypes

  /** How many albums each step asks for more (countOneLoad). */
  const CountOneLoad: int := 200

  /** An album of the list; its presentation fields are not modelled. */
  datatype AlbumItem = AlbumItem(id: int, ownerId: int, title: string)

  /** The error a failed page request shows on the screen. */
  datatype ScreenError = ScreenError(message: string)

  /** What the getAlbums request answers: a page of items, or a thrown error. */
  datatype Page = PageOk(items: seq<AlbumItem>) | PageFailed(error: ScreenError)

  /** The arguments of one getAlbums request. */
  datatype PageRequest = PageRequest(ownerId: int, offset: int, count: int)

  /** The reactive state a load step reads and writes. */
  datatype LoaderState = LoaderState(
    albums: seq<AlbumItem>,
    albumsMaxItems: int,
    isLoadingAlbums: bool,
    isInit: bool,
    screenError: Option<ScreenError>)

  /** The load watcher returns at once while a load runs or before any target is set. */
  predicate Skips(s: LoaderState) {
    s.isLoadingAlbums || s.albumsMaxItems == 0
  }

  /** The static albums lead the list, unless it is empty. */
  predicate StaticPrefix(albums: seq<AlbumItem>, staticAlbums: seq<AlbumItem>) {
    albums == [] || (|staticAlbums| <= |albums| && albums[..|staticAlbums|] == staticAlbums)
  }

  /**
   * The list a performed step starts from: an empty list is first seeded
   * with the static albums, a non-empty one is kept as it is. Either way
   * the albums already there lead it, and a list that starts with the
   * static albums still does.
   */
  function Seeded(s: LoaderState, staticAlbums: seq<AlbumItem>): (r: seq<AlbumItem>)
    ensures s.albums <= r
    ensures |r| == if |s.albums| == 0 then |staticAlbums| else |s.albums|
    ensures StaticPrefix(s.albums, staticAlbums) ==>
      |staticAlbums| <= |r| && r[..|staticAlbums|] == staticAlbums
  {
    if |s.albums| == 0 then staticAlbums else s.albums
  }

  /**
   * The request of a performed step: the remote albums already loaded are
   * skipped, and the rest of the target is asked for.
   */
  function RequestFor(s: LoaderState, staticAlbums: seq<AlbumItem>, ownerId: int): (q: PageRequest)
    ensures q.ownerId == ownerId
    ensures q.offset + |staticAlbums| == |Seeded(s, staticAlbums)|
    ensures q.offset + q.count == s.albumsMaxItems
  {
    var offset := |Seeded(s, staticAlbums)| - |staticAlbums|;
    PageRequest(ownerId, offset, s.albumsMaxItems - offset)
  }

  /** The albums watcher as one transition, given the page its request answers. */
  function LoadStep(s: LoaderState, staticAlbums: seq<AlbumItem>, page: Page): LoaderState {
    if Skips(s) then s
    else
      var seeded := Seeded(s, staticAlbums);
      match page
      case PageOk(items) =>
        s.(albums := seeded + items, isLoadingAlbums := false, isInit := true)
      case PageFailed(e) =>
        s.(albums := if |seeded| == |staticAlbums| then [] else seeded,
           screenError := Some(e), isLoadingAlbums := false, isInit := true)
  }

  /** A skipped step changes nothing at all. */
  lemma SkippedStepChangesNothing(s: LoaderState, staticAlbums: seq<AlbumItem>, page: Page)
    requires Skips(s)
    ensures LoadStep(s, staticAlbums, page) == s
  {
  }

  /**
   * A performed step ends with the loading flag down and the loader marked
   * initialised, and it leaves the target alone.
   */
  lemma PerformedStepFlags(s: LoaderState, staticAlbums: seq<AlbumItem>, page: Page)
    requires !Skips(s)
    ensures var r := LoadStep(s, staticAlbums, page);
      !r.isLoadingAlbums && r.isInit && r.albumsMaxItems == s.albumsMaxItems
  {
  }

  /**
   * A successful step appends the page after the albums already there,
   * which stay as they were.
   */
  lemma SuccessAppends(s: LoaderState, staticAlbums: seq<AlbumItem>, items: seq<AlbumItem>)
    requires !Skips(s)
    ensures var r := LoadStep(s, staticAlbums, PageOk(items));
      var seeded := Seeded(s, staticAlbums);
      |r.albums| == |seeded| + |items| &&
      r.albums[..|seeded|] == seeded && r.albums[|seeded|..] == items &&
      r.screenError == s.screenError
  {
    var seeded := Seeded(s, staticAlbums);
    var r := seeded + items;
    assert r[..|seeded|] == seeded && r[|seeded|..] == items;
  }

  /**
   * A failed step records the error. When only the static albums were
   * there the list is emptied again; otherwise the albums loaded so far stay.
   */
  lemma FailureRollsBack(s: LoaderState, staticAlbums: seq<AlbumItem>, e: ScreenError)
    requires !Skips(s)
    ensures var r := LoadStep(s, staticAlbums, PageFailed(e));
      var seeded := Seeded(s, staticAlbums);
      r.screenError == Some(e) &&
      (|seeded| == |staticAlbums| ==> r.albums == []) &&
      (|seeded| != |staticAlbums| ==> r.albums == seeded)
  {
  }

  /** Every step keeps the static albums in front of the remote ones. */
  lemma {:induction false} StepKeepsStaticPrefix(s: LoaderState, staticAlbums: seq<AlbumItem>, page: Page)
    requires StaticPrefix(s.albums, staticAlbums)
    ensures StaticPrefix(LoadStep(s, staticAlbums, page).albums, staticAlbums)
  {
    if !Skips(s) {
      var seeded := Seeded(s, staticAlbums);
      assert |staticAlbums| <= |seeded| && seeded[..|staticAlbums|] == staticAlbums;
      if page.PageOk? {
        var r := seeded + page.items;
        assert r[..|staticAlbums|] == seeded[..|staticAlbums|];
      }
    }
  }

  /**
   * A first load that fails leaves the list empty, so the next step seeds
   * it again and asks from offset 0.
   */
  lemma FailedFirstLoadRetriesFromStart(s: LoaderState, staticAlbums: seq<AlbumItem>, e: ScreenError, ownerId: int)
    requires !Skips(s) && s.albums == []
    ensures var r := LoadStep(s, staticAlbums, PageFailed(e));
      r.albums == [] && RequestFor(r, staticAlbums, ownerId).offset == 0 &&
      RequestFor(r, staticAlbums, ownerId).count == s.albumsMaxItems
  {
  }

  /**
   * Two successful steps leave the static albums, then the first page,
   * then the second; the second request skips exactly the first page.
   */
  lemma TwoPagesAccumulate(s: LoaderState, staticAlbums: seq<AlbumItem>, p1: seq<AlbumItem>, p2: seq<AlbumItem>, ownerId: int)
    requires !Skips(s) && s.albums == []
    ensures var r1 := LoadStep(s, staticAlbums, PageOk(p1));
      var r2 := LoadStep(r1, staticAlbums, PageOk(p2));
      RequestFor(r1, staticAlbums, ownerId).offset == |p1| &&
      r2.albums == staticAlbums + p1 + p2
  {
  }

  /**
   * The scroller guard `endIndex + countOneLoad / 3 < albumsMaxItems`, on
   * JavaScript numbers: true when the target stays as it is.
   */
  function FarFromEnd(endIndex: int, albumsMaxItems: int): (far: bool)
    ensures far <==> 3 * endIndex + CountOneLoad < 3 * albumsMaxItems
  {
    (endIndex as real) + (CountOneLoad as real) / 3.0 < albumsMaxItems as real
  }

  /** The loader of one owner's albums (the state of useAlbums). */
  class AlbumsLoader {
    var ownerId: int
    var staticAlbums: seq<AlbumItem>
    var albums: seq<AlbumItem>
    var albumsMaxItems: int
    var isLoadingAlbums: bool
    var isInit: bool
    var group: Option<Group>
    var screenError: Option<ScreenError>

    /**
     * The static albums lead a non-empty list, and the target is a
     * non-negative multiple of countOneLoad.
     */
    ghost predicate Valid()
      reads this
    {
      StaticPrefix(albums, staticAlbums) &&
      albumsMaxItems >= 0 && albumsMaxItems % CountOneLoad == 0
    }

    function State(): LoaderState
      reads this
    {
      LoaderState(albums, albumsMaxItems, isLoadingAlbums, isInit, screenError)
    }

    /** The refs as created, before the owner watcher first runs. */
    constructor(owner: int, ownerStatic: seq<AlbumItem>)
      ensures Valid()
      ensures ownerId == owner && staticAlbums == ownerStatic
      ensures State() == LoaderState([], 0, false, false, None) && group == None
    {
      ownerId := owner;
      staticAlbums := ownerStatic;
      albums := [];
      albumsMaxItems := 0;
      isLoadingAlbums := false;
      isInit := false;
      group := None;
      screenError := None;
    }

    /** onClearComponent: back to the initial refs. */
    method OnClearComponent()
      modifies this
      ensures Valid()
      ensures State() == LoaderState([], 0, false, false, None) && group == None
      ensures ownerId == old(ownerId) && staticAlbums == old(staticAlbums)
    {
      isInit := false;
      isLoadingAlbums := false;
      albums := [];
      albumsMaxItems := 0;
      group := None;
      screenError := None;
    }

    /**
     * The owner watcher: reset, look the group up for a negative (group)
     * owner, then set the first target, which starts the first load.
     * `lookup` is what getGroupByIdOrLoad(-owner) yields (None when it
     * throws); `ownerStatic` is getStaticAlbums(owner).
     */
    method OnOwnerChanged(owner: int, ownerStatic: seq<AlbumItem>, lookup: Option<Group>)
      modifies this
      ensures Valid()
      ensures ownerId == owner && staticAlbums == ownerStatic
      ensures State() == LoaderState([], CountOneLoad, false, false, None)
      ensures group == if owner < 0 then lookup else None
      ensures !Skips(State())
    {
      ownerId := owner;
      staticAlbums := ownerStatic;
      OnClearComponent();
      if owner < 0 {
        group := lookup;
      }
      albumsMaxItems := CountOneLoad;
    }

    /**
     * The albums watcher: unless it skips, seed the list, request the
     * missing part of the target, then append the page or record the
     * error. Returns the request it sends, if any.
     */
    method LoadAlbums(page: Page) returns (request: Option<PageRequest>)
      requires Valid()
      modifies this
      ensures Valid()
      ensures State() == LoadStep(old(State()), staticAlbums, page)
      ensures request == if Skips(old(State())) then None
        else Some(RequestFor(old(State()), staticAlbums, ownerId))
      ensures ownerId == old(ownerId) && staticAlbums == old(staticAlbums) && group == old(group)
    {
      StepKeepsStaticPrefix(State(), staticAlbums, page);
      if isLoadingAlbums || albumsMaxItems == 0 {
        return None;
      }
      isLoadingAlbums := true;
      if |albums| == 0 {
        albums := albums + staticAlbums;
      }
      var offset := |albums| - |staticAlbums|;
      var count := albumsMaxItems - offset;
      request := Some(PageRequest(ownerId, offset, count));
      match page {
        case PageOk(items) =>
          albums := albums + items;
        case PageFailed(e) =>
          screenError := Some(e);
          if |albums| == |staticAlbums| {
            albums := [];
          }
      }
      isLoadingAlbums := false;
      isInit := true;
    }

    /** onScrollerUpdate: raise the target by countOneLoad when the end comes near it. */
    method OnScrollerUpdate(startIndex: int, endIndex: int, visibleStartIndex: int, visibleEndIndex: int)
      requires Valid()
      modifies this
      ensures Valid()
      ensures 3 * endIndex + CountOneLoad >= 3 * old(albumsMaxItems) ==>
        albumsMaxItems == old(albumsMaxItems) + CountOneLoad
      ensures 3 * endIndex + CountOneLoad < 3 * old(albumsMaxItems) ==>
        albumsMaxItems == old(albumsMaxItems)
      ensures albums == old(albums) && isLoadingAlbums == old(isLoadingAlbums) && isInit == old(isInit)
      ensures screenError == old(screenError) && group == old(group)
      ensures ownerId == old(ownerId) && staticAlbums == old(staticAlbums)
    {
      if FarFromEnd(endIndex, albumsMaxItems) {
        return;
      }
      albumsMaxItems := albumsMaxItems + CountOneLoad;
    }
  }
}
