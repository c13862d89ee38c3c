/** `PlaylistCardAdapter`: the list adapter that lays a page of playlist videos
    out as cards, with advertisement slots at fixed positions, and asks its
    listener for the next page when the card slot at position `size - 1` is
    bound. The card there shows the video under the cursor, which in a first
    scroll is not the last video. */
module Adapter {
  import opened JavaLang
  import opened Duration

  /** The two layouts `getItemViewType` answers with. */
  const CARD_VIEW_TYPE: int := 1
  const AD_VIEW_TYPE: int := 2

  /** The slots that hold an advertisement instead of a video card. */
  const AD_POSITIONS: set<int> := {0, 6}

  /** `getItemViewType(position)`. */
  function ItemViewType(position: int): (r: int)
    ensures r == AD_VIEW_TYPE <==> position in AD_POSITIONS
    ensures r == CARD_VIEW_TYPE <==> position !in AD_POSITIONS
  {
    if position == 0 || position == 6 then AD_VIEW_TYPE else CARD_VIEW_TYPE
  }

  /** `getItemCount()`: one slot per loaded video plus one per ad position.
      From five videos on, the card slots among them are exactly the videos;
      with fewer, slot 6 lies outside the list and one card slot more than
      there are videos is laid out. */
  function ItemCount(size: nat): (r: nat)
    ensures r == size + |AD_POSITIONS|
    ensures CardSlotsBelow(r) == if size >= 5 then size else size + 1
  {
    CardSlotsBelowClosedForm(size + 2);
    size + 2
  }

  /** `isEmpty(s)` on a string reference that may be `null`. */
  function IsEmpty(s: Option<string>): (r: bool)
    ensures r <==> s == None || s == Some("")
  {
    s.None? || |s.value| == 0
  }

  const WATCH_URL_PREFIX: string := "http://www.youtube.com/watch?v="

  /** The page a tap on the thumbnail opens, and the text a share carries. */
  function WatchUrl(videoId: string): (r: string)
    ensures |r| == |WATCH_URL_PREFIX| + |videoId|
    ensures r[..|WATCH_URL_PREFIX|] == WATCH_URL_PREFIX && r[|WATCH_URL_PREFIX|..] == videoId
  {
    WATCH_URL_PREFIX + videoId
  }

  /** The parts of a playlist video the adapter's logic reads. */
  datatype Video = Video(id: string, duration: string)

  /** A deferred `onLastItem(position, nextPageToken)` call to the listener. */
  datatype Notification = LastItem(position: int, token: string)

  /** The adapter's mutable state: the static cursor `counter` and the
      notifications posted so far. */
  datatype Cursor = Cursor(counter: int32, notifications: seq<Notification>)

  /** What one `onBindViewHolder` call did with the slot. */
  datatype BindOutcome =
    | AdSlot                      // a slot of type 2: nothing is done
    | NoItems                     // the list is empty: early return
    | CardWithoutItem             // the cursor is past the list: the card is left as it was
    | Card(video: Video, durationText: string)
    | Thrown(exception: Exception)

  /** The condition under which a bound card posts a request for the next page. */
  function RequestsNextPage(position: int, size: int, token: Option<string>, hasListener: bool): (r: bool)
    ensures r <==> hasListener && token.Some? && token.value != "" && position == size - 1
  {
    hasListener && !IsEmpty(token) && position == size - 1
  }

  /** One `onBindViewHolder(holder, position)` call on the list `items` with
      continuation token `token`, `format` being the duration formatter
      (`ParseDuration` in the adapter). A card slot shows the video under the cursor,
      not the one under `position`, and then moves the cursor on; an
      exception leaves the state as it was. */
  function Step(format: string -> Result<string>, c: Cursor, position: int, items: seq<Video>, token: Option<string>, hasListener: bool)
    : (r: (Cursor, BindOutcome))
    ensures r.0.counter == c.counter || r.0.counter == Increment(c.counter)
    ensures |c.notifications| <= |r.0.notifications| <= |c.notifications| + 1
    ensures r.0.notifications[..|c.notifications|] == c.notifications
  {
    if ItemViewType(position) != CARD_VIEW_TYPE then (c, AdSlot)
    else if |items| == 0 then (c, NoItems)
    else if c.counter as int < |items| then
      if c.counter < 0 then (c, Thrown(IndexOutOfBounds))
      else
        var video := items[c.counter as int];
        match format(video.duration)
        case Throws(e) => (c, Thrown(e))
        case Success(text) =>
          var posted :=
            if RequestsNextPage(position, |items|, token, hasListener)
            then c.notifications + [LastItem(position, token.value)]
            else c.notifications;
          (Cursor(Increment(c.counter), posted), Card(video, text))
    else (Cursor(Increment(c.counter), c.notifications), CardWithoutItem)
  }

  /** A card slot whose cursor points at a video with a parseable duration
      shows that video and moves the cursor on. */
  lemma {:induction false} BindShowsVideo(format: string -> Result<string>, c: Cursor, position: int, items: seq<Video>, token: Option<string>, hasListener: bool)
    requires position !in AD_POSITIONS
    requires 0 <= c.counter as int < |items|
    requires format(items[c.counter].duration).Success?
    ensures var video := items[c.counter];
      Step(format, c, position, items, token, hasListener) ==
        (Cursor(Increment(c.counter),
                if RequestsNextPage(position, |items|, token, hasListener)
                then c.notifications + [LastItem(position, token.value)]
                else c.notifications),
         Card(video, format(video.duration).value))
  {
  }

  /** Binding an advertisement slot changes nothing. */
  lemma {:induction false} BindAdSlot(format: string -> Result<string>, c: Cursor, position: int, items: seq<Video>, token: Option<string>, hasListener: bool)
    requires position in AD_POSITIONS
    ensures Step(format, c, position, items, token, hasListener) == (c, AdSlot)
  {
  }

  /** Binding a card slot of an empty list returns early, leaving the cursor. */
  lemma {:induction false} BindEmptyList(format: string -> Result<string>, c: Cursor, position: int, token: Option<string>, hasListener: bool)
    requires position !in AD_POSITIONS
    ensures Step(format, c, position, [], token, hasListener) == (c, NoItems)
  {
  }

  /** On a card slot of a non-empty list the cursor advances by exactly one
      unless the bind throws, also when it is past the end and nothing is
      read; a throwing bind changes nothing. */
  lemma {:induction false} BindCardAdvances(format: string -> Result<string>, c: Cursor, position: int, items: seq<Video>, token: Option<string>, hasListener: bool)
    requires position !in AD_POSITIONS && |items| > 0
    ensures var (c', outcome) := Step(format, c, position, items, token, hasListener);
      && (outcome.Thrown? <==> (0 <= c.counter as int < |items| && format(items[c.counter].duration).Throws?)
                               || c.counter < 0)
      && (outcome.Thrown? ==> c' == c)
      && (!outcome.Thrown? ==> c'.counter == Increment(c.counter))
      && (!outcome.Thrown? && c.counter as int < INT_MAX ==> c'.counter as int == c.counter as int + 1)
      && (c.counter as int >= |items| ==> outcome == CardWithoutItem && c'.notifications == c.notifications)
  {
  }

  /** A notification is posted exactly when a card slot reads an item whose
      duration parses, the listener is set, the token is non-empty and the
      position is the last index of the list; it is then the one call
      `onLastItem(position, token)`. */
  lemma {:induction false} BindNotifies(format: string -> Result<string>, c: Cursor, position: int, items: seq<Video>, token: Option<string>, hasListener: bool)
    ensures var c' := Step(format, c, position, items, token, hasListener).0;
      && (c'.notifications != c.notifications <==>
            && position !in AD_POSITIONS
            && 0 <= c.counter as int < |items|
            && format(items[c.counter].duration).Success?
            && hasListener && token.Some? && token.value != ""
            && position == |items| - 1)
      && (c'.notifications != c.notifications ==>
            c'.notifications == c.notifications + [LastItem(position, token.value)])
  {
    var c' := Step(format, c, position, items, token, hasListener).0;
    if c'.notifications != c.notifications {
      assert |c'.notifications| == |c.notifications| + 1;
    }
  }

  /** The cursor, not the position, selects the video: two card slots bound
      from the same state show the same video and move the cursor alike. */
  lemma {:induction false} BindIgnoresPosition(format: string -> Result<string>, c: Cursor, p: int, q: int, items: seq<Video>, token: Option<string>, hasListener: bool)
    requires p !in AD_POSITIONS && q !in AD_POSITIONS
    ensures var (cp, op) := Step(format, c, p, items, token, hasListener);
      var (cq, oq) := Step(format, c, q, items, token, hasListener);
      && cp.counter == cq.counter
      && (op.Card? <==> oq.Card?)
      && (op.Card? ==> op.video == oq.video && op.video == items[c.counter])
  {
  }

  /** Binding the same card slot twice in a row shows two different list
      entries: the cursor has moved on in between. */
  lemma {:induction false} RebindShowsNextVideo(format: string -> Result<string>, c: Cursor, position: int, items: seq<Video>, token: Option<string>, hasListener: bool)
    requires position !in AD_POSITIONS
    requires 0 <= c.counter as int < INT_MAX && c.counter as int + 1 < |items|
    requires format(items[c.counter].duration).Success?
    requires format(items[c.counter as int + 1].duration).Success?
    ensures var (c1, o1) := Step(format, c, position, items, token, hasListener);
      var (c2, o2) := Step(format, c1, position, items, token, hasListener);
      && o1.Card? && o1.video == items[c.counter]
      && o2.Card? && o2.video == items[c.counter as int + 1]
  {
    BindShowsVideo(format, c, position, items, token, hasListener);
    var c1 := Step(format, c, position, items, token, hasListener).0;
    assert c1.counter as int == c.counter as int + 1;
    BindShowsVideo(format, c1, position, items, token, hasListener);
  }

  /** Binds the slots `positions` one after the other. A `Thrown` outcome
      leaves the state as it was and the next slot is bound from there; in the
      running program the exception would end the layout pass instead. */
  function Run(format: string -> Result<string>, c: Cursor, positions: seq<int>, items: seq<Video>, token: Option<string>, hasListener: bool)
    : (r: (Cursor, seq<BindOutcome>))
    ensures |r.1| == |positions|
    ensures |c.notifications| <= |r.0.notifications| <= |c.notifications| + |positions|
    ensures r.0.notifications[..|c.notifications|] == c.notifications
    decreases |positions|
  {
    if positions == [] then (c, [])
    else
      var (before, outcomes) := Run(format, c, positions[..|positions| - 1], items, token, hasListener);
      var (after, outcome) := Step(format, before, positions[|positions| - 1], items, token, hasListener);
      (after, outcomes + [outcome])
  }

  /** The videos shown on cards, in binding order. */
  function ShownVideos(outcomes: seq<BindOutcome>): (r: seq<Video>)
  {
    if outcomes == [] then []
    else
      var last := outcomes[|outcomes| - 1];
      ShownVideos(outcomes[..|outcomes| - 1]) + (if last.Card? then [last.video] else [])
  }

  /** The number of card slots among the positions `0 .. k-1`. */
  function CardSlotsBelow(k: int): (r: nat)
    decreases k
  {
    if k <= 0 then 0
    else CardSlotsBelow(k - 1) + (if ItemViewType(k - 1) == CARD_VIEW_TYPE then 1 else 0)
  }

  /** The card slots below `k` are `k` minus the ad slots below it. */
  lemma {:induction false} CardSlotsBelowClosedForm(k: int)
    ensures CardSlotsBelow(k) == if k <= 0 then 0 else if k <= 6 then k - 1 else k - 2
    decreases k
  {
    if k > 0 {
      CardSlotsBelowClosedForm(k - 1);
    }
  }

  predicate AllDurationsParse(format: string -> Result<string>, items: seq<Video>)
  {
    forall i :: 0 <= i < |items| ==> format(items[i].duration).Success?
  }

  /** The slots `0 .. k-1` in order: a first scroll down the list. */
  function Positions(k: nat): (r: seq<int>)
    ensures |r| == k && forall i :: 0 <= i < k ==> r[i] == i
  {
    seq(k, i => i)
  }

  function Min(a: int, b: int): (r: int)
  {
    if a <= b then a else b
  }

  /** The notifications a first scroll over `0 .. k-1` posts. */
  function FirstPassNotifications(k: nat, items: seq<Video>, token: Option<string>, hasListener: bool): (r: seq<Notification>)
  {
    if 1 <= |items| <= k && |items| - 1 !in AD_POSITIONS && RequestsNextPage(|items| - 1, |items|, token, hasListener)
    then [LastItem(|items| - 1, token.value)]
    else []
  }

  /** What `FirstPass` says of the state after the slots `0 .. j-1`. */
  predicate FirstPassState(j: nat, c: Cursor, outcomes: seq<BindOutcome>,
                           items: seq<Video>, token: Option<string>, hasListener: bool)
  {
    && c.counter as int == (if |items| == 0 then 0 else CardSlotsBelow(j))
    && ShownVideos(outcomes) == items[..Min(CardSlotsBelow(j), |items|)]
    && c.notifications == FirstPassNotifications(j, items, token, hasListener)
  }

  lemma {:induction false} ShownVideosSnoc(outcomes: seq<BindOutcome>, outcome: BindOutcome)
    ensures ShownVideos(outcomes + [outcome]) == ShownVideos(outcomes) + (if outcome.Card? then [outcome.video] else [])
  {
    var all := outcomes + [outcome];
    assert all[..|all| - 1] == outcomes;
  }

  /** Slot `j` adds no notification to a first scroll unless it is the card
      slot at position `size - 1`. */
  lemma {:induction false} FirstPassNotificationsStep(j: nat, items: seq<Video>, token: Option<string>, hasListener: bool)
    ensures FirstPassNotifications(j + 1, items, token, hasListener) ==
      if j !in AD_POSITIONS && |items| > 0 && RequestsNextPage(j, |items|, token, hasListener)
      then [LastItem(j, token.value)]
      else FirstPassNotifications(j, items, token, hasListener)
  {
  }

  /** A first scroll crossing an ad slot, or any slot of an empty list. */
  lemma {:induction false} FirstPassStepIdle(format: string -> Result<string>, j: nat, before: Cursor, outcomes: seq<BindOutcome>,
                          items: seq<Video>, token: Option<string>, hasListener: bool)
    requires j in AD_POSITIONS || |items| == 0
    requires FirstPassState(j, before, outcomes, items, token, hasListener)
    ensures var r := Step(format, before, j, items, token, hasListener);
      FirstPassState(j + 1, r.0, outcomes + [r.1], items, token, hasListener)
  {
    var r := Step(format, before, j, items, token, hasListener);
    if j in AD_POSITIONS {
      BindAdSlot(format, before, j, items, token, hasListener);
    } else {
      assert items == [];
      BindEmptyList(format, before, j, token, hasListener);
    }
    assert r.0 == before && !r.1.Card?;
    ShownVideosSnoc(outcomes, r.1);
    FirstPassNotificationsStep(j, items, token, hasListener);
    CardSlotsBelowClosedForm(j);
    CardSlotsBelowClosedForm(j + 1);
  }

  /** A first scroll crossing a card slot while videos remain shows the next
      video and posts the request if this is the card slot at position
      `size - 1`. */
  lemma {:induction false} FirstPassCardBind(format: string -> Result<string>, j: nat, before: Cursor,
                          items: seq<Video>, token: Option<string>, hasListener: bool)
    requires j < INT_MAX && j !in AD_POSITIONS
    requires CardSlotsBelow(j) < |items|
    requires format(items[CardSlotsBelow(j)].duration).Success?
    requires before.counter as int == CardSlotsBelow(j)
    requires before.notifications == FirstPassNotifications(j, items, token, hasListener)
    ensures var r := Step(format, before, j, items, token, hasListener);
      && r.0.counter as int == CardSlotsBelow(j + 1)
      && r.0.notifications == FirstPassNotifications(j + 1, items, token, hasListener)
      && r.1.Card? && r.1.video == items[CardSlotsBelow(j)]
  {
    CardSlotsBelowClosedForm(j);
    BindShowsVideo(format, before, j, items, token, hasListener);
    FirstPassNotificationsStep(j, items, token, hasListener);
  }

  /** A first scroll crossing a card slot while videos remain. */
  lemma {:induction false} FirstPassStepCard(format: string -> Result<string>, j: nat, before: Cursor, outcomes: seq<BindOutcome>,
                          items: seq<Video>, token: Option<string>, hasListener: bool)
    requires j < INT_MAX && j !in AD_POSITIONS
    requires CardSlotsBelow(j) < |items|
    requires format(items[CardSlotsBelow(j)].duration).Success?
    requires FirstPassState(j, before, outcomes, items, token, hasListener)
    ensures var r := Step(format, before, j, items, token, hasListener);
      FirstPassState(j + 1, r.0, outcomes + [r.1], items, token, hasListener)
  {
    var r := Step(format, before, j, items, token, hasListener);
    FirstPassCardBind(format, j, before, items, token, hasListener);
    FirstPassStateAfterCard(j, before, r.0, outcomes, r.1, items, token, hasListener);
  }

  /** The state after a card slot that showed the next video. */
  lemma {:induction false} FirstPassStateAfterCard(j: nat, before: Cursor, after: Cursor, outcomes: seq<BindOutcome>, outcome: BindOutcome,
                                items: seq<Video>, token: Option<string>, hasListener: bool)
    requires j !in AD_POSITIONS && CardSlotsBelow(j) < |items|
    requires FirstPassState(j, before, outcomes, items, token, hasListener)
    requires after.counter as int == CardSlotsBelow(j + 1)
    requires after.notifications == FirstPassNotifications(j + 1, items, token, hasListener)
    requires outcome.Card? && outcome.video == items[CardSlotsBelow(j)]
    ensures FirstPassState(j + 1, after, outcomes + [outcome], items, token, hasListener)
  {
    var n := CardSlotsBelow(j);
    assert CardSlotsBelow(j + 1) == n + 1;
    ShownVideosSnoc(outcomes, outcome);
    assert items[..n + 1] == items[..n] + [items[n]];
  }

  /** A first scroll crossing a card slot after the last video. */
  lemma {:induction false} FirstPassStepPastEnd(format: string -> Result<string>, j: nat, before: Cursor, outcomes: seq<BindOutcome>,
                             items: seq<Video>, token: Option<string>, hasListener: bool)
    requires j < INT_MAX && j !in AD_POSITIONS && |items| > 0
    requires CardSlotsBelow(j) >= |items|
    requires FirstPassState(j, before, outcomes, items, token, hasListener)
    ensures var r := Step(format, before, j, items, token, hasListener);
      FirstPassState(j + 1, r.0, outcomes + [r.1], items, token, hasListener)
  {
    CardSlotsBelowClosedForm(j);
    CardSlotsBelowClosedForm(j + 1);
    var r := Step(format, before, j, items, token, hasListener);
    BindCardAdvances(format, before, j, items, token, hasListener);
    assert r.1 == CardWithoutItem && r.0.notifications == before.notifications;
    ShownVideosSnoc(outcomes, r.1);
    FirstPassNotificationsStep(j, items, token, hasListener);
  }

  /** Scrolling over one more slot is one more bind. */
  lemma {:induction false} RunPositionsStep(format: string -> Result<string>, j: nat, items: seq<Video>, token: Option<string>, hasListener: bool)
    ensures var before := Run(format, Cursor(0, []), Positions(j), items, token, hasListener);
      var r := Step(format, before.0, j, items, token, hasListener);
      Run(format, Cursor(0, []), Positions(j + 1), items, token, hasListener) == (r.0, before.1 + [r.1])
  {
    assert Positions(j + 1)[..j] == Positions(j);
  }

  /** Scrolling once over the slots `0 .. k-1` from a fresh cursor: the cursor
      ends at the number of card slots crossed (or stays at 0 on an empty
      list), the cards show the videos in list order, and a notification is
      posted only if slot `size - 1` was crossed and is a card slot. */
  lemma {:induction false} FirstPass(format: string -> Result<string>, k: nat, items: seq<Video>, token: Option<string>, hasListener: bool)
    requires k <= INT_MAX
    requires AllDurationsParse(format, items)
    ensures var run := Run(format, Cursor(0, []), Positions(k), items, token, hasListener);
      FirstPassState(k, run.0, run.1, items, token, hasListener)
    decreases k
  {
    if k == 0 {
      assert Positions(0) == [];
    } else {
      var j := k - 1;
      FirstPass(format, j, items, token, hasListener);
      RunPositionsStep(format, j, items, token, hasListener);
      var run := Run(format, Cursor(0, []), Positions(j), items, token, hasListener);
      var before, outcomes := run.0, run.1;
      if j in AD_POSITIONS || |items| == 0 {
        FirstPassStepIdle(format, j, before, outcomes, items, token, hasListener);
      } else if CardSlotsBelow(j) < |items| {
        FirstPassStepCard(format, j, before, outcomes, items, token, hasListener);
      } else {
        FirstPassStepPastEnd(format, j, before, outcomes, items, token, hasListener);
      }
    }
  }

  /** A first scroll over every slot the adapter reports shows each video
      exactly once, in order. From five videos on the cursor ends at the list
      size; with one to four it ends one past it. The next page is requested
      only when slot `size - 1` is a card slot: never with one or seven
      videos, for which that slot is an ad slot. */
  lemma {:induction false} FullFirstPass(format: string -> Result<string>, items: seq<Video>, token: Option<string>, hasListener: bool)
    requires |items| <= INT_MAX - 2
    requires AllDurationsParse(format, items)
    ensures var (c, outcomes) := Run(format, Cursor(0, []), Positions(ItemCount(|items|)), items, token, hasListener);
      && ShownVideos(outcomes) == items
      && c.counter as int == (if |items| == 0 then 0 else if |items| >= 5 then |items| else |items| + 1)
      && c.notifications ==
           if |items| != 0 && |items| != 1 && |items| != 7 && RequestsNextPage(|items| - 1, |items|, token, hasListener)
           then [LastItem(|items| - 1, token.value)]
           else []
  {
    FirstPass(format, ItemCount(|items|), items, token, hasListener);
    assert items[..|items|] == items;
  }

  /** The request for the next page comes from the card slot at position
      `size - 1`, and in a first scroll that card shows an earlier video than
      the last: video `size - 2` while the slot lies below the ad slot 6, and
      video `size - 3` beyond it. */
  lemma {:induction false} FirstPassRequestSlot(format: string -> Result<string>, items: seq<Video>, token: Option<string>, hasListener: bool)
    requires 2 <= |items| <= INT_MAX && |items| - 1 !in AD_POSITIONS
    requires AllDurationsParse(format, items)
    ensures var j := |items| - 1;
      var before := Run(format, Cursor(0, []), Positions(j), items, token, hasListener).0;
      var r := Step(format, before, j, items, token, hasListener);
      && r.1.Card?
      && r.1.video == items[if j < 6 then |items| - 2 else |items| - 3]
      && (RequestsNextPage(j, |items|, token, hasListener) ==>
            r.0.notifications == before.notifications + [LastItem(j, token.value)])
  {
    var j := |items| - 1;
    FirstPass(format, j, items, token, hasListener);
    var before := Run(format, Cursor(0, []), Positions(j), items, token, hasListener).0;
    CardSlotsBelowClosedForm(j);
    assert before.counter as int == if j < 6 then |items| - 2 else |items| - 3;
    BindShowsVideo(format, before, j, items, token, hasListener);
  }

  /** The paged collection the adapter reads; it is filled by other code. */
  class PlaylistVideos {
    var items: seq<Video>
    var nextPageToken: Option<string>

    constructor (items: seq<Video>, nextPageToken: Option<string>)
      ensures this.items == items && this.nextPageToken == nextPageToken
    {
      this.items := items;
      this.nextPageToken := nextPageToken;
    }
  }

  class PlaylistCardAdapter {
    const playlist: PlaylistVideos
    const hasListener: bool
    /** The item cursor; a static field in the adapter, so the constructor
        takes the value it holds when this adapter is created. */
    var counter: int32
    /** The `onLastItem` calls posted to the listener, in order. */
    ghost var notifications: seq<Notification>

    ghost function State(): Cursor
      reads this
    {
      Cursor(counter, notifications)
    }

    constructor (playlist: PlaylistVideos, hasListener: bool, counter: int32)
      ensures this.playlist == playlist && this.hasListener == hasListener
      ensures State() == Cursor(counter, [])
    {
      this.playlist := playlist;
      this.hasListener := hasListener;
      this.counter := counter;
      notifications := [];
    }

    /** `onBindViewHolder(holder, position)`, widget updates left out. */
    method Bind(position: int) returns (outcome: BindOutcome)
      modifies this
      ensures (State(), outcome) == Step(ParseDuration, old(State()), position, playlist.items, playlist.nextPageToken, hasListener)
    {
      if ItemViewType(position) == AD_VIEW_TYPE {
        return AdSlot;
      }
      var items := playlist.items;
      if |items| == 0 {
        return NoItems;
      }
      if counter as int < |items| {
        if counter < 0 {
          return Thrown(IndexOutOfBounds);
        }
        var video := items[counter as int];
        var durationText := ParseDuration(video.duration);
        if durationText.Throws? {
          return Thrown(durationText.exception);
        }
        outcome := Card(video, durationText.value);
        if hasListener {
          var nextPageToken := playlist.nextPageToken;
          if !IsEmpty(nextPageToken) && position == |items| - 1 {
            notifications := notifications + [LastItem(position, nextPageToken.value)];
          }
        }
      } else {
        outcome := CardWithoutItem;
      }
      counter := Increment(counter);
    }
  }
}
