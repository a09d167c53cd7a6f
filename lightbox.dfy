/** `initLightbox` (js/main.js:156-203): the full-size image viewer. */
module Lightbox {
  import opened Dom

  /** The `.gallery-overlay` of an item: the text of its `h4` and of its `span`. */
  datatype Overlay = Overlay(title: string, location: string)

  /** A `.gallery-item`: its image's `src` and `alt`, and its overlay if it has one. */
  datatype GalleryItem = GalleryItem(src: string, alt: string, overlay: Option<Overlay>)

  /** The caption the lightbox shows: a title and a location. */
  datatype Caption = Caption(title: string, location: string)

  /** What the lightbox shows and whether the page may scroll: the "active"
      class, the image's `src` and `alt`, the caption, and `body.style.overflow`. */
  datatype LightboxState = LightboxState(active: bool, src: string, alt: string, caption: Caption, overflow: string)

  /** The events the lightbox listens to. A click inside the lightbox records
      whether its target is the lightbox element itself (the backdrop). */
  datatype Event = ItemClick(item: GalleryItem) | CloseButtonClick | LightboxClick(onBackdrop: bool)
                 | KeyDown(key: string)

  const OverflowHidden: string := "hidden"
  const OverflowRestored: string := ""

  /** The caption read from an item's overlay; an item without one gives empty strings. */
  function CaptionOf(item: GalleryItem): Caption {
    match item.overlay
    case None => Caption("", "")
    case Some(o) => Caption(o.title, o.location)
  }

  /** Opening on an item (js/main.js:167-178). */
  function Opened(item: GalleryItem): LightboxState {
    LightboxState(true, item.src, item.alt, CaptionOf(item), OverflowHidden)
  }

  /** `closeLightbox` (js/main.js:199-202): the image and caption stay as they were. */
  function Closed(v: LightboxState): LightboxState {
    v.(active := false, overflow := OverflowRestored)
  }

  /** One event. `hasCloseButton` says whether `lightbox-close` exists. */
  function Step(v: LightboxState, e: Event, hasCloseButton: bool): LightboxState {
    match e
    case ItemClick(item) => Opened(item)
    case CloseButtonClick => if hasCloseButton then Closed(v) else v
    case LightboxClick(onBackdrop) => if onBackdrop then Closed(v) else v
    case KeyDown(key) => if key == "Escape" && v.active then Closed(v) else v
  }

  function Run(v: LightboxState, events: seq<Event>, hasCloseButton: bool): LightboxState
    decreases |events|
  {
    if events == [] then v else Run(Step(v, events[0], hasCloseButton), events[1..], hasCloseButton)
  }

  /** Page scrolling is suppressed exactly while the lightbox is open. */
  predicate Consistent(v: LightboxState) {
    v.overflow == (if v.active then OverflowHidden else OverflowRestored)
  }

  /** Every event keeps the lightbox's state and the page's scrolling in agreement. */
  lemma StepConsistent(v: LightboxState, e: Event, hasCloseButton: bool)
    requires Consistent(v)
    ensures Consistent(Step(v, e, hasCloseButton))
  {
  }

  lemma {:induction false} RunConsistent(v: LightboxState, events: seq<Event>, hasCloseButton: bool)
    requires Consistent(v)
    ensures Consistent(Run(v, events, hasCloseButton))
    decreases |events|
  {
    if events != [] {
      StepConsistent(v, events[0], hasCloseButton);
      RunConsistent(Step(v, events[0], hasCloseButton), events[1..], hasCloseButton);
    }
  }

  /** Opening shows the item's image and caption; title and location are empty
      only when the item has no overlay. */
  lemma OpenShowsItem(v: LightboxState, item: GalleryItem, hasCloseButton: bool)
    ensures var w := Step(v, ItemClick(item), hasCloseButton);
      w.active && w.src == item.src && w.alt == item.alt && w.overflow == OverflowHidden &&
      (item.overlay.Some? ==> w.caption == Caption(item.overlay.value.title, item.overlay.value.location)) &&
      (item.overlay.None? ==> w.caption == Caption("", ""))
  {
  }

  /** Escape closes an open lightbox and does nothing to a closed one; on a
      consistent view, closing twice is closing once. */
  lemma EscapeCloses(v: LightboxState, hasCloseButton: bool)
    requires Consistent(v)
    ensures v.active ==> !Step(v, KeyDown("Escape"), hasCloseButton).active
    ensures !v.active ==> Step(v, KeyDown("Escape"), hasCloseButton) == v
    ensures !v.active ==> Closed(v) == v
  {
  }

  /** The lightbox of the page (it exists: without it nothing is wired). */
  class LightboxElement {
    /** Whether `lightbox-close` exists, so its listener is installed. */
    const hasCloseButton: bool
    var active: bool
    var src: string
    var alt: string
    var caption: Caption
    var bodyOverflow: string

    function State(): LightboxState
      reads this
    {
      LightboxState(active, src, alt, caption, bodyOverflow)
    }

    ghost predicate Valid()
      reads this
    {
      Consistent(State())
    }

    /** Page load: closed, with page scrolling as the page set it (not overridden). */
    constructor Init(hasCloseButton: bool)
      ensures Valid() && !active && this.hasCloseButton == hasCloseButton
    {
      this.hasCloseButton := hasCloseButton;
      active := false;
      src, alt := "", "";
      caption := Caption("", "");
      bodyOverflow := OverflowRestored;
    }

    /** A click on a gallery item (js/main.js:167-178). */
    method OnItemClick(item: GalleryItem)
      requires Valid()
      modifies this
      ensures Valid()
      ensures State() == Step(old(State()), ItemClick(item), hasCloseButton)
    {
      var title := if item.overlay.Some? then item.overlay.value.title else "";
      var location := if item.overlay.Some? then item.overlay.value.location else "";
      src := item.src;
      alt := item.alt;
      caption := Caption(title, location);
      active := true;
      bodyOverflow := OverflowHidden;
    }

    method CloseLightbox()
      requires Valid()
      modifies this
      ensures Valid()
      ensures State() == Closed(old(State()))
    {
      active := false;
      bodyOverflow := OverflowRestored;
    }

    method OnCloseButtonClick()
      requires Valid()
      modifies this
      ensures Valid()
      ensures State() == Step(old(State()), CloseButtonClick, hasCloseButton)
    {
      if hasCloseButton {
        CloseLightbox();
      }
    }

    method OnLightboxClick(onBackdrop: bool)
      requires Valid()
      modifies this
      ensures Valid()
      ensures State() == Step(old(State()), LightboxClick(onBackdrop), hasCloseButton)
    {
      if onBackdrop {
        CloseLightbox();
      }
    }

    method OnKeyDown(key: string)
      requires Valid()
      modifies this
      ensures Valid()
      ensures State() == Step(old(State()), KeyDown(key), hasCloseButton)
    {
      if key == "Escape" && active {
        CloseLightbox();
      }
    }
  }
}
