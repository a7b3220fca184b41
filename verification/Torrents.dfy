/** A torrent as PopcornKit/Sources/Models/Torrent.swift holds it. */
module Torrents {
  import opened Sequences

  /** The release source the title is classified as, best last. */
  datatype ReleaseSource = Screener | Unknown | DvdRip | Hdtv | WebRip | WebDl | BluRay

  datatype Torrent = Torrent(
    url: string,
    quality: Option<string>,
    seeds: int,
    peers: int,
    locale: Option<string>,
    source: ReleaseSource)

  /** The comparison of quality labels, by their lengths first. */
  predicate LabelPrecedes(a: string, b: string) {
    if |b| == 2 && |a| > 2 then true
    else if |b| == 5 && 2 < |a| < 5 then true
    else if |b| == 4 && |a| == 4 then Less(a, b)
    else false
  }

  /** `Torrent <`. */
  predicate Precedes(a: Torrent, b: Torrent) {
    a.quality.Some? && b.quality.Some? && LabelPrecedes(a.quality.value, b.quality.value)
  }
}
