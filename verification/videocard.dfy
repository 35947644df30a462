/**
 * One gallery card's controller: hover preview, click-to-toggle, the one-shot
 * fallback substitution on a media error, and the preview button that hands
 * the best available source to the lightbox.
 */
module VideoCard {
  import opened Wrappers
  import Fallback
  import Lightbox

  /** The card's `<source>` child and its `src` attribute. */
  datatype SourceEl = SourceEl(src: Option<string>)

  /**
   * The card's `<video>`: its `src` attribute, optional `<source>` child,
   * paused flag, muted flag and `atStart`: rewound by the last `load()` or
   * `currentTime = 0` and not moved since, as far as the model sees (it has
   * no event for time passing while the video plays).
   */
  datatype Video = Video(src: Option<string>, source: Option<SourceEl>, paused: bool, muted: bool, atStart: bool)

  /**
   * The controller state of one card: the category used for fallbacks, the
   * video, whether the card has a `.play-btn`, and the `fallbacked` flag.
   */
  datatype Card = Card(category: string, video: Video, hasButton: bool, fallbacked: bool)

  /**
   * What the page sees of a card. Playback attempts carry their outcome:
   * `playOk` is false when `play()` is rejected, which the source ignores.
   */
  datatype Event =
    | MediaError(playOk: bool)
    | PointerEnter(playOk: bool)
    | PointerLeave
    | CardClick(playOk: bool)
    | PreviewClick(playOk: bool)

  /**
   * The controller set up for a `.video-card`: none when it has no `<video>`;
   * the category is `data-category`, or `generic` when that is missing or empty.
   */
  function Setup(categoryAttr: Option<string>, video: Option<Video>, hasButton: bool,
                 fallbackedAttr: Option<string>): (r: Option<Card>)
    ensures video.None? <==> r.None?
    ensures r.Some? ==> r.value.video == video.value && r.value.hasButton == hasButton
    ensures r.Some? && Truthy(categoryAttr) ==> r.value.category == categoryAttr.value
    ensures r.Some? && !Truthy(categoryAttr) ==> r.value.category == Fallback.Generic
    ensures r.Some? ==> r.value.category != ""
    ensures r.Some? ==> (r.value.fallbacked <==> Truthy(fallbackedAttr))
  {
    match video
    case None => None
    case Some(v) => Some(Card(OrElse(categoryAttr, Fallback.Generic), v, hasButton, Truthy(fallbackedAttr)))
  }

  function Play(v: Video, playOk: bool): (r: Video)
    ensures r.paused <==> v.paused && !playOk
    ensures r == v.(paused := r.paused)
  {
    v.(paused := v.paused && !playOk)
  }

  /** `load()`: the element stops and rewinds to the start of its (new) source. */
  function Load(v: Video): (r: Video)
    ensures r.paused && r.atStart
    ensures r == v.(paused := true, atStart := true)
  {
    v.(paused := true, atStart := true)
  }

  /** Writes `url` into the `<source>` child when there is one, otherwise into the video's `src`. */
  function Substitute(v: Video, url: string): (r: Video)
    ensures v.source.Some? ==> r.source == Some(SourceEl(Some(url))) && r.src == v.src
    ensures v.source.None? ==> r.src == Some(url) && r.source == v.source
    ensures r.paused == v.paused && r.muted == v.muted && r.atStart == v.atStart
  {
    if v.source.None? then v.(src := Some(url)) else v.(source := Some(SourceEl(Some(url))))
  }

  /** `onSourceError`: pick a fallback for the card's category, substitute it, reload and retry playback. */
  function OnSourceError(c: Card, counters: Fallback.Counters, playOk: bool): (r: (Card, Fallback.Counters))
    ensures r.1 == Fallback.GetFallback(counters, c.category).counters
    ensures r.0.category == c.category && r.0.hasButton == c.hasButton && r.0.fallbacked == c.fallbacked
    ensures var url := Fallback.GetFallback(counters, c.category).url;
      url in Fallback.ListFor(c.category) &&
      (c.video.source.Some? ==> r.0.video.source == Some(SourceEl(Some(url))) && r.0.video.src == c.video.src) &&
      (c.video.source.None? ==> r.0.video.src == Some(url) && r.0.video.source.None?)
    ensures r.0.video.atStart && (r.0.video.paused <==> !playOk)
    ensures r.0.video.muted == c.video.muted
  {
    var pick := Fallback.GetFallback(counters, c.category);
    (c.(video := Play(Load(Substitute(c.video, pick.url)), playOk)), pick.counters)
  }

  /**
   * The source the preview button hands to the lightbox: the `<source>` src
   * if non-empty, else the video's `src` if non-empty, else a fallback pick,
   * which is the only case that advances a counter.
   */
  function PreviewSource(c: Card, counters: Fallback.Counters): (r: (string, Fallback.Counters))
    ensures c.video.source.Some? && Truthy(c.video.source.value.src) ==>
      r == (c.video.source.value.src.value, counters)
    ensures !(c.video.source.Some? && Truthy(c.video.source.value.src)) && Truthy(c.video.src) ==>
      r == (c.video.src.value, counters)
    ensures !(c.video.source.Some? && Truthy(c.video.source.value.src)) && !Truthy(c.video.src) ==>
      r.0 == Fallback.GetFallback(counters, c.category).url &&
      r.1 == Fallback.GetFallback(counters, c.category).counters
  {
    if c.video.source.Some? && Truthy(c.video.source.value.src) then (c.video.source.value.src.value, counters)
    else if Truthy(c.video.src) then (c.video.src.value, counters)
    else
      var pick := Fallback.GetFallback(counters, c.category);
      (pick.url, pick.counters)
  }

  /** The state shared by all cards: the fallback counters and the lightbox. */
  datatype Shared = Shared(counters: Fallback.Counters, lightbox: Lightbox.Overlay)

  /** The result of one event: the new card and shared state, and whether a fallback was substituted. */
  datatype Outcome = Outcome(card: Card, shared: Shared, substituted: bool)

  /** One event on one card. */
  function Step(c: Card, s: Shared, e: Event): (r: Outcome)
    ensures r.card.category == c.category && r.card.hasButton == c.hasButton
    ensures r.substituted <==> e.MediaError? && !c.fallbacked
    ensures r.card.fallbacked <==> c.fallbacked || e.MediaError?
    ensures !e.MediaError? && !e.PreviewClick? ==> r.shared == s
    ensures e.PreviewClick? ==> r.card == c
    ensures e.MediaError? && c.fallbacked ==> r.card == c && r.shared == s
    ensures e.PointerEnter? ==> r.card.video.muted && (r.card.video.paused <==> c.video.paused && !e.playOk)
    ensures e.PointerLeave? ==> r.card.video.paused && r.card.video.atStart
    ensures e.CardClick? && !c.video.paused ==> r.card.video.paused
    ensures e.CardClick? && c.video.paused ==> (r.card.video.paused <==> !e.playOk)
    ensures !e.MediaError? ==> r.card.video.src == c.video.src && r.card.video.source == c.video.source
    ensures e.MediaError? && !c.fallbacked ==>
      (r.card, r.shared.counters) == OnSourceError(c.(fallbacked := true), s.counters, e.playOk) &&
      r.shared.lightbox == s.lightbox
    ensures e.PreviewClick? && c.hasButton ==>
      r.shared == Shared(PreviewSource(c, s.counters).1, Lightbox.Open(s.lightbox, PreviewSource(c, s.counters).0, e.playOk))
    ensures e.PreviewClick? && !c.hasButton ==> r.shared == s
    ensures !e.MediaError? && !e.PointerEnter? ==> r.card.video.muted == c.video.muted
    ensures e.PointerEnter? || e.CardClick? ==> r.card.video.atStart == c.video.atStart
  {
    match e
    case MediaError(playOk) =>
      if c.fallbacked then Outcome(c, s, false)
      else
        var (c', counters') := OnSourceError(c.(fallbacked := true), s.counters, playOk);
        Outcome(c', s.(counters := counters'), true)
    case PointerEnter(playOk) =>
      Outcome(c.(video := Play(c.video.(muted := true), playOk)), s, false)
    case PointerLeave =>
      Outcome(c.(video := c.video.(paused := true, atStart := true)), s, false)
    case CardClick(playOk) =>
      var v := if c.video.paused then Play(c.video, playOk) else c.video.(paused := true);
      Outcome(c.(video := v), s, false)
    case PreviewClick(playOk) =>
      if !c.hasButton then Outcome(c, s, false)
      else
        var (src, counters') := PreviewSource(c, s.counters);
        Outcome(c, Shared(counters', Lightbox.Open(s.lightbox, src, playOk)), false)
  }

  /** A run of events on one card: the final states and how many substitutions ran. */
  datatype Trace = Trace(card: Card, shared: Shared, substitutions: nat)

  function Run(c: Card, s: Shared, events: seq<Event>): Trace
    decreases |events|
  {
    if |events| == 0 then Trace(c, s, 0)
    else
      var o := Step(c, s, events[0]);
      var t := Run(o.card, o.shared, events[1..]);
      Trace(t.card, t.shared, t.substitutions + (if o.substituted then 1 else 0))
  }

  predicate HasError(events: seq<Event>)
  {
    exists i :: 0 <= i < |events| && events[i].MediaError?
  }

  /**
   * However many error events arrive, the fallback substitution runs at most
   * once: exactly once when the card was not yet marked and some error came,
   * never otherwise; afterwards the card stays marked.
   */
  lemma {:induction false} FallbackAtMostOnce(c: Card, s: Shared, events: seq<Event>)
    ensures Run(c, s, events).substitutions <= 1
    ensures Run(c, s, events).substitutions == 1 <==> !c.fallbacked && HasError(events)
    ensures Run(c, s, events).card.fallbacked <==> c.fallbacked || HasError(events)
    ensures Run(c, s, events).card.category == c.category
    decreases |events|
  {
    if |events| > 0 {
      var o := Step(c, s, events[0]);
      FallbackAtMostOnce(o.card, o.shared, events[1..]);
      assert HasError(events) <==> events[0].MediaError? || HasError(events[1..]) by {
        if HasError(events[1..]) {
          var i :| 0 <= i < |events[1..]| && events[1..][i].MediaError?;
          assert events[i + 1].MediaError?;
        }
        if HasError(events) && !events[0].MediaError? {
          var i :| 0 <= i < |events| && events[i].MediaError?;
          assert events[1..][i - 1].MediaError?;
        }
      }
    }
  }

  /** The preview button never hands the lightbox an empty source. */
  lemma PreviewSourceNonEmpty(c: Card, counters: Fallback.Counters)
    ensures PreviewSource(c, counters).0 != ""
  {
  }

  /**
   * The preview button loads the resolved source into a present lightbox and
   * leaves the card itself, including its playback, untouched.
   */
  lemma PreviewOpensLightbox(c: Card, s: Shared, playOk: bool)
    requires c.hasButton && s.lightbox.Overlay?
    ensures var o := Step(c, s, PreviewClick(playOk));
      o.card == c && o.shared.lightbox.shown &&
      o.shared.lightbox.video.src == Some(PreviewSource(c, s.counters).0) &&
      o.shared.lightbox.video.src != Some("")
  {
  }
}
