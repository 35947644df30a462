/**
 * The shared lightbox overlay: one `<video>` that is loaded with a source on
 * open and released on close. When the overlay or its video element is missing
 * from the page, opening and closing do nothing.
 */
module Lightbox {
  import opened Wrappers

  /** The overlay's video element: its `src` attribute and whether it is paused. */
  datatype Media = Media(src: Option<string>, paused: bool)

  /** `shown` is the `show` class; `ariaHidden` the `aria-hidden` attribute value. */
  datatype Overlay = Missing | Overlay(shown: bool, ariaHidden: string, video: Media)

  /** `play()`: succeeds or is rejected by autoplay policy, in which case the element stays paused. */
  function Play(m: Media, playOk: bool): (r: Media)
    ensures r.src == m.src
    ensures r.paused <==> m.paused && !playOk
  {
    m.(paused := m.paused && !playOk)
  }

  /** `openLightbox(src)`: show the overlay, load `src || ''`, attempt playback. */
  function Open(o: Overlay, src: string, playOk: bool): (r: Overlay)
    ensures o.Missing? ==> r == o
    ensures o.Overlay? ==> r.Overlay? && r.shown && r.ariaHidden == "false"
    ensures o.Overlay? ==> r.video.src == Some(src)
    ensures o.Overlay? ==> (r.video.paused <==> !playOk)
  {
    match o
    case Missing => o
    // load() pauses the element before play() is attempted
    case Overlay(_, _, _) => Overlay(true, "false", Play(Media(Some(src), true), playOk))
  }

  /** `closeLightbox()`: hide the overlay, pause, drop the `src` attribute and reload. */
  function Close(o: Overlay): (r: Overlay)
    ensures o.Missing? ==> r == o
    ensures o.Overlay? ==> r.Overlay? && !r.shown && r.ariaHidden == "true"
    ensures o.Overlay? ==> r.video.src.None? && r.video.paused
  {
    match o
    case Missing => o
    case Overlay(_, _, _) => Overlay(false, "true", Media(None, true))
  }

  /** A keydown anywhere in the window: Escape closes the lightbox. */
  function OnKey(o: Overlay, key: string): (r: Overlay)
    ensures key == "Escape" ==> r == Close(o)
    ensures key != "Escape" ==> r == o
  {
    if key == "Escape" then Close(o) else o
  }

  /**
   * A click inside the overlay: it closes when the target's `data-close` is
   * `lightbox` or the target has the `modal-close` class.
   */
  function OnOverlayClick(o: Overlay, dataClose: Option<string>, hasCloseClass: bool): (r: Overlay)
    ensures dataClose == Some("lightbox") || hasCloseClass ==> r == Close(o)
    ensures !(dataClose == Some("lightbox") || hasCloseClass) ==> r == o
  {
    if dataClose == Some("lightbox") || hasCloseClass then Close(o) else o
  }

  /** Opening replaces whatever was open before: only the latest source remains. */
  lemma OpenReplaces(o: Overlay, a: string, okA: bool, b: string, okB: bool)
    ensures Open(Open(o, a, okA), b, okB) == Open(o, b, okB)
  {
  }

  /** Closing forgets what was open, and closing again changes nothing. */
  lemma CloseReleases(o: Overlay, src: string, playOk: bool)
    ensures Close(Open(o, src, playOk)) == Close(o)
    ensures Close(Close(o)) == Close(o)
  {
  }
}
