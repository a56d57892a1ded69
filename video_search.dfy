/**
 * The video list page: the list is loaded once, falling back to two
 * sample videos when the response is not a JSON array or the request
 * fails, and the search box filters it, keeping in their order the videos
 * whose title or description contains the query, ignoring letter case.
 */
module VideoSearch {
  import opened Wrappers

  datatype Video = Video(id: string, title: string, description: Option<string>,
                         thumbnail: string, src: string, duration: string)

  /** The title or description text searched; a missing description reads as empty. */
  function DescriptionText(v: Video): string
  {
    if v.description.Some? then v.description.value else ""
  }

  // ---------------------------------------------------------------------
  // Case-insensitive substring match

  /** `toLowerCase` on one character, for the ASCII letters. */
  function LowerChar(c: char): (l: char)
    ensures 'A' <= c <= 'Z' ==> l as int == c as int + 32
    ensures !('A' <= c <= 'Z') ==> l == c
  {
    if 'A' <= c <= 'Z' then (c as int + 32) as char else c
  }

  function Lower(s: string): (l: string)
    ensures |l| == |s|
    ensures forall i :: 0 <= i < |s| ==> l[i] == LowerChar(s[i])
  {
    if s == [] then [] else [LowerChar(s[0])] + Lower(s[1..])
  }

  /** Lower-casing twice is lower-casing once. */
  lemma LowerIdempotent(s: string)
    ensures Lower(Lower(s)) == Lower(s)
  {
    assert forall i :: 0 <= i < |s| ==> LowerChar(LowerChar(s[i])) == LowerChar(s[i]);
  }

  /** `sub` occurs in `s` starting at index `i`. */
  predicate OccursAt(s: string, sub: string, i: int)
  {
    0 <= i <= |s| - |sub| && s[i..i + |sub|] == sub
  }

  /** `includes`: `sub` occurs in `s` at some offset. */
  predicate Contains(s: string, sub: string)
  {
    exists i :: 0 <= i <= |s| && OccursAt(s, sub, i)
  }

  /** The empty string occurs in every string, and only the empty string occurs in the empty string. */
  lemma ContainsEmpty(s: string, sub: string)
    ensures Contains(s, "")
    ensures Contains("", sub) <==> sub == ""
  {
    assert OccursAt(s, "", 0);
    assert OccursAt("", "", 0);
  }

  /** The search predicate: the lower-cased query occurs in the lower-cased title or description. */
  predicate Matches(v: Video, query: string)
  {
    Contains(Lower(v.title), Lower(query)) || Contains(Lower(DescriptionText(v)), Lower(query))
  }

  /** Without a description (or with an empty one), only the title can match. */
  lemma MissingDescriptionMatchesTitle(v: Video, query: string)
    requires DescriptionText(v) == ""
    ensures Matches(v, query) <==> Contains(Lower(v.title), Lower(query))
  {
    ContainsEmpty(Lower(v.title), Lower(query));
    assert Lower(DescriptionText(v)) == "";
  }

  /** The match ignores the case of the query: a lower-cased query matches the same videos. */
  lemma MatchesIgnoresQueryCase(v: Video, query: string)
    ensures Matches(v, query) <==> Matches(v, Lower(query))
  {
    LowerIdempotent(query);
  }

  // ---------------------------------------------------------------------
  // The filtered list

  /** `Array.prototype.filter`: the videos for which `keep` holds, in their order. */
  function Filter(videos: seq<Video>, keep: Video -> bool): seq<Video>
  {
    if videos == [] then []
    else (if keep(videos[0]) then [videos[0]] else []) + Filter(videos[1..], keep)
  }

  /** The list shown for `query`: `videos.filter(v => Matches(v, query))`. */
  function Filtered(videos: seq<Video>, query: string): seq<Video>
  {
    Filter(videos, v => Matches(v, query))
  }

  /**
   * Filtering distributes over concatenation: each part of the list is
   * filtered on its own and the results stay in the order of the parts.
   */
  lemma {:induction false} FilterAppend(a: seq<Video>, b: seq<Video>, keep: Video -> bool)
    ensures Filter(a + b, keep) == Filter(a, keep) + Filter(b, keep)
  {
    if a == [] {
      assert a + b == b;
    } else {
      var ab := a + b;
      assert ab[0] == a[0] && ab[1..] == a[1..] + b;
      FilterAppend(a[1..], b, keep);
      var head: seq<Video> := if keep(a[0]) then [a[0]] else [];
      calc {
        Filter(ab, keep);
        head + Filter(a[1..] + b, keep);
        head + (Filter(a[1..], keep) + Filter(b, keep));
        (head + Filter(a[1..], keep)) + Filter(b, keep);
      }
    }
  }

  /** A single video is kept exactly when `keep` holds for it. */
  lemma FilterSingle(v: Video, keep: Video -> bool)
    ensures Filter([v], keep) == if keep(v) then [v] else []
  {
    assert [v][1..] == [];
  }

  /** A video is kept exactly when it is among the videos and `keep` holds for it. */
  lemma {:induction false} FilterSelects(videos: seq<Video>, keep: Video -> bool)
    ensures forall v :: v in Filter(videos, keep) <==> v in videos && keep(v)
  {
    if videos != [] {
      FilterSelects(videos[1..], keep);
      assert videos == [videos[0]] + videos[1..];
    }
  }

  /** When `keep` holds for every video, the filter keeps the list as it is. */
  lemma {:induction false} FilterKeepsAll(videos: seq<Video>, keep: Video -> bool)
    requires forall i :: 0 <= i < |videos| ==> keep(videos[i])
    ensures Filter(videos, keep) == videos
  {
    if videos != [] {
      FilterKeepsAll(videos[1..], keep);
      assert [videos[0]] + videos[1..] == videos;
    }
  }

  /** Filtering the filtered list again with the same predicate changes nothing. */
  lemma {:induction false} FilterIdempotent(videos: seq<Video>, keep: Video -> bool)
    ensures Filter(Filter(videos, keep), keep) == Filter(videos, keep)
  {
    if videos != [] {
      FilterIdempotent(videos[1..], keep);
      var rest := Filter(videos[1..], keep);
      if keep(videos[0]) {
        FilterAppend([videos[0]], rest, keep);
        FilterSingle(videos[0], keep);
      } else {
        assert [] + rest == rest;
      }
    }
  }

  /** A video is listed exactly when it is among the videos and matches the query. */
  lemma FilteredSelects(videos: seq<Video>, query: string)
    ensures forall v :: v in Filtered(videos, query) <==> v in videos && Matches(v, query)
  {
    FilterSelects(videos, v => Matches(v, query));
  }

  /** An empty query keeps every video. */
  lemma EmptyQueryKeepsAll(videos: seq<Video>)
    ensures Filtered(videos, "") == videos
  {
    assert Lower("") == "";
    forall i | 0 <= i < |videos| ensures Matches(videos[i], "") {
      ContainsEmpty(Lower(videos[i].title), "");
    }
    FilterKeepsAll(videos, v => Matches(v, ""));
  }

  // ---------------------------------------------------------------------
  // Loading the list

  /** The two sample videos shown when the list cannot be loaded. */
  const MOCK_VIDEOS: seq<Video> := [
    Video("1", "Sample Video One", Some("A beautiful sample video."),
          "https://via.placeholder.com/480x270.png?text=Video+1",
          "https://www.w3schools.com/html/mov_bbb.mp4", "0:10"),
    Video("2", "Sample Video Two", Some("Another sample clip."),
          "https://via.placeholder.com/480x270.png?text=Video+2",
          "https://interactive-examples.mdn.mozilla.net/media/cc0-videos/flower.webm", "0:08")
  ]

  /** The message shown when the request fails. */
  const LOAD_ERROR: string := "Failed to load videos, showing samples."

  /**
   * How the request for the list ends: it fails (the network, a status
   * other than 2xx, or a body that is not JSON), or the body is a JSON
   * array of videos, or it is some other JSON value.
   */
  datatype Response = RequestFailed | JsonArray(items: seq<Video>) | OtherJson

  datatype PageState = PageState(videos: seq<Video>, error: Option<string>, loading: bool)

  /** The page before the request settles. */
  const INITIAL: PageState := PageState([], None, true)

  /**
   * The state once the request settles, unless the page has gone away in
   * the meantime, in which case nothing is set.
   */
  function Settle(state: PageState, response: Response, cancelled: bool): (next: PageState)
    ensures cancelled ==> next == state
    ensures !cancelled ==> !next.loading
    ensures !cancelled ==> (next.videos == MOCK_VIDEOS || response.JsonArray?)
    ensures !cancelled && response.JsonArray? ==> next.videos == response.items && next.error == state.error
    ensures !cancelled ==> (next.error == Some(LOAD_ERROR) <==> response.RequestFailed? || state.error == Some(LOAD_ERROR))
  {
    if cancelled then state
    else match response
      case JsonArray(items) => PageState(items, state.error, false)
      case OtherJson => PageState(MOCK_VIDEOS, state.error, false)
      case RequestFailed => PageState(MOCK_VIDEOS, Some(LOAD_ERROR), false)
  }

  /** From the initial state, the message appears exactly when the request failed, and a list is always shown. */
  lemma LoadOnce(response: Response)
    ensures var s := Settle(INITIAL, response, false);
            && (s.error.Some? <==> response.RequestFailed?)
            && (response.JsonArray? ==> s.videos == response.items)
            && (!response.JsonArray? ==> |s.videos| == 2)
  {
  }
}
