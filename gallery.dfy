/** `initGallery` and `filterGallery` (js/main.js:110-153): filter buttons
    that show the items of one category. */
module Gallery {
  import opened Dom

  /** The token of the button that shows every item. */
  const AllToken: string := "all"

  /** A `.filter-btn`: its `data-filter` attribute and its "active" class. */
  datatype Button = Button(filter: Option<string>, active: bool)

  /** A `.gallery-item` or `.card[data-category]`: its `data-category`
      attribute, its inline display, and whether the fade-in animation is set on it. */
  datatype Item = Item(category: Option<string>, display: Display, fadeIn: bool)

  /** The comparison at js/main.js:129: the "all" token, or strict equality of
      the two attribute values (both may be missing). */
  predicate Matches(filter: Option<string>, category: Option<string>) {
    filter == Some(AllToken) || category == filter
  }

  /** One item after a click with `filter`: shown with the fade-in, or hidden
      with its animation left as it was. */
  function Filtered(item: Item, filter: Option<string>): Item {
    if Matches(filter, item.category) then item.(display := Block, fadeIn := true)
    else item.(display := Hidden)
  }

  /** Every item after a click with `filter`. */
  function FilterAll(items: seq<Item>, filter: Option<string>): (r: seq<Item>)
    ensures |r| == |items|
    ensures forall k :: 0 <= k < |r| ==> r[k] == Filtered(items[k], filter)
  {
    if items == [] then []
    else FilterAll(items[..|items| - 1], filter) + [Filtered(items[|items| - 1], filter)]
  }

  /** An item is displayed after the click exactly when the token is "all" or
      its category equals the token; a hidden item keeps its animation. */
  lemma FilteredItem(items: seq<Item>, filter: Option<string>, k: nat)
    requires k < |items|
    ensures FilterAll(items, filter)[k].category == items[k].category
    ensures FilterAll(items, filter)[k].display == Block <==>
      filter == Some(AllToken) || items[k].category == filter
    ensures FilterAll(items, filter)[k].display != Block ==>
      FilterAll(items, filter)[k].display == Hidden &&
      FilterAll(items, filter)[k].fadeIn == items[k].fadeIn
  {
  }

  /** What items show depends only on the last filter clicked. */
  lemma LastFilterDecidesDisplay(items: seq<Item>, f: Option<string>, g: Option<string>)
    ensures |FilterAll(FilterAll(items, f), g)| == |items|
    ensures forall k :: 0 <= k < |items| ==>
      FilterAll(FilterAll(items, f), g)[k].display == FilterAll(items, g)[k].display
  {
  }

  /** Clicking the same filter twice is the same as clicking it once. */
  lemma FilterIdempotent(items: seq<Item>, f: Option<string>)
    ensures FilterAll(FilterAll(items, f), f) == FilterAll(items, f)
  {
  }

  /** How many buttons carry "active". */
  function ActiveCount(buttons: seq<Button>): nat {
    if buttons == [] then 0
    else ActiveCount(buttons[..|buttons| - 1]) + (if buttons[|buttons| - 1].active then 1 else 0)
  }

  /** When exactly button `i` is active, one button is active. */
  lemma {:induction false} OnlyOneActive(buttons: seq<Button>, i: nat)
    requires i < |buttons|
    requires forall j :: 0 <= j < |buttons| ==> buttons[j].active == (j == i)
    ensures ActiveCount(buttons) == 1
  {
    var n := |buttons| - 1;
    if i < n {
      OnlyOneActive(buttons[..n], i);
    } else {
      NoneActive(buttons[..n]);
    }
  }

  lemma {:induction false} NoneActive(buttons: seq<Button>)
    requires forall j :: 0 <= j < |buttons| ==> buttons[j].active == false
    ensures ActiveCount(buttons) == 0
  {
    if buttons != [] {
      NoneActive(buttons[..|buttons| - 1]);
    }
  }

  /** The first button whose `data-filter` is `token`, as the selector
      `.filter-btn[data-filter="token"]` finds it. */
  function FirstWithFilter(buttons: seq<Button>, token: string): (r: Option<nat>)
    ensures r.Some? ==> r.value < |buttons| && buttons[r.value].filter == Some(token)
    ensures r.Some? ==> forall j :: 0 <= j < r.value ==> buttons[j].filter != Some(token)
    ensures r.None? ==> forall j :: 0 <= j < |buttons| ==> buttons[j].filter != Some(token)
  {
    if buttons == [] then None
    else if buttons[0].filter == Some(token) then Some(0)
    else match FirstWithFilter(buttons[1..], token)
      case None => None
      case Some(j) => Some(j + 1)
  }

  /** The gallery of one page: its filter buttons, its gallery items and its
      destination cards. */
  class GalleryPage {
    const buttons: array<Button>
    const galleryItems: array<Item>
    const cards: array<Item>

    ghost predicate Valid()
      reads this
    {
      galleryItems != cards
    }

    constructor (buttons: seq<Button>, galleryItems: seq<Item>, cards: seq<Item>)
      ensures Valid()
      ensures this.buttons[..] == buttons && this.galleryItems[..] == galleryItems && this.cards[..] == cards
      ensures fresh(this.buttons) && fresh(this.galleryItems) && fresh(this.cards)
    {
      this.buttons := new Button[|buttons|](i requires 0 <= i < |buttons| => buttons[i]);
      this.galleryItems := new Item[|galleryItems|](i requires 0 <= i < |galleryItems| => galleryItems[i]);
      this.cards := new Item[|cards|](i requires 0 <= i < |cards| => cards[i]);
    }

    /** The items a click filters: the gallery items when there are any, else the cards. */
    function Targets(): array<Item>
      reads this
    {
      if galleryItems.Length > 0 then galleryItems else cards
    }

    /** The click handler of button `i` (js/main.js:116-136). */
    method Click(i: nat)
      requires Valid()
      requires i < buttons.Length
      modifies buttons, galleryItems, cards
      ensures forall j :: 0 <= j < buttons.Length ==> buttons[j] == old(buttons[j]).(active := j == i)
      ensures ActiveCount(buttons[..]) == 1
      ensures Targets()[..] == FilterAll(old(Targets()[..]), old(buttons[i].filter))
      ensures galleryItems.Length == 0 ==> galleryItems[..] == old(galleryItems[..])
      ensures galleryItems.Length > 0 ==> cards[..] == old(cards[..])
    {
      var filter := buttons[i].filter;
      var items, others := if galleryItems.Length > 0 then galleryItems else cards,
                           if galleryItems.Length > 0 then cards else galleryItems;
      var b := 0;
      while b < buttons.Length
        invariant 0 <= b <= buttons.Length
        invariant forall j :: 0 <= j < b ==> buttons[j] == old(buttons[j]).(active := false)
        invariant forall j :: b <= j < buttons.Length ==> buttons[j] == old(buttons[j])
        invariant items[..] == old(items[..]) && others[..] == old(others[..])
      {
        buttons[b] := buttons[b].(active := false);
        b := b + 1;
      }
      buttons[i] := buttons[i].(active := true);

      var k := 0;
      while k < items.Length
        invariant 0 <= k <= items.Length
        invariant forall j :: 0 <= j < buttons.Length ==> buttons[j] == old(buttons[j]).(active := j == i)
        invariant others[..] == old(others[..])
        invariant forall j :: 0 <= j < k ==> items[j] == Filtered(old(items[j]), filter)
        invariant forall j :: k <= j < items.Length ==> items[j] == old(items[j])
      {
        if filter == Some(AllToken) || items[k].category == filter {
          items[k] := items[k].(display := Block, fadeIn := true);
        } else {
          items[k] := items[k].(display := Hidden);
        }
        k := k + 1;
      }
      OnlyOneActive(buttons[..], i);
    }

    /** `filterGallery(token)` (js/main.js:141-153): click the first button
        with that token, if there is one. */
    method FilterBy(token: string) returns (clicked: Option<nat>)
      requires Valid()
      modifies buttons, galleryItems, cards
      ensures clicked == FirstWithFilter(old(buttons[..]), token)
      ensures clicked.None? ==>
        buttons[..] == old(buttons[..]) && galleryItems[..] == old(galleryItems[..]) &&
        cards[..] == old(cards[..])
      ensures clicked.Some? ==>
        (forall j :: 0 <= j < buttons.Length ==> buttons[j] == old(buttons[j]).(active := j == clicked.value)) &&
        Targets()[..] == FilterAll(old(Targets()[..]), Some(token))
      ensures clicked.Some? ==> ActiveCount(buttons[..]) == 1
      ensures galleryItems.Length == 0 ==> galleryItems[..] == old(galleryItems[..])
      ensures galleryItems.Length > 0 ==> cards[..] == old(cards[..])
    {
      clicked := FirstWithFilter(buttons[..], token);
      if clicked.Some? {
        Click(clicked.value);
      }
    }
  }
}
