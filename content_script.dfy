/**
 * The post-processing half of the browser extension's scraper (extension/content.js):
 * the Facebook photo id read out of an image url, the dedup loop that keeps one url per
 * photo id, the generic fallback's longest-text pick and large-image dedup, and the
 * `success` flag sent back with the scraped data. The DOM queries that produce the
 * candidate texts and images are inputs here.
 */
module ContentScript {
  import opened Wrappers
  import opened Seqs
  import opened Strings

  // ---------------------------------------------------------------------------------
  // getFbImageId: the regular expression /\/(\d+)_(\d+)_(\d+)_/
  // ---------------------------------------------------------------------------------

  /** `s[i..j]` is a non-empty run of ASCII digits (`\d+`). */
  predicate IsDigitRun(s: string, i: int, j: int)
  {
    0 <= i < j <= |s| && forall k :: i <= k < j ==> IsDigit(s[k])
  }

  /**
   * The pattern occurs at `p`: a slash at `p`, then three digit runs, each closed by an
   * underscore at `a`, `b` and `c` respectively. The middle group is `s[a + 1..b]`.
   */
  predicate PatternAt(s: string, p: int, a: int, b: int, c: int)
  {
    0 <= p < |s| && s[p] == '/' &&
    IsDigitRun(s, p + 1, a) && a < |s| && s[a] == '_' &&
    IsDigitRun(s, a + 1, b) && b < |s| && s[b] == '_' &&
    IsDigitRun(s, b + 1, c) && c < |s| && s[c] == '_'
  }

  /** The end of the longest digit run starting at `i`. */
  function DigitRunEnd(s: string, i: nat): (j: nat)
    requires i <= |s|
    ensures i <= j <= |s|
    ensures forall k :: i <= k < j ==> IsDigit(s[k])
    ensures j < |s| ==> !IsDigit(s[j])
    decreases |s| - i
  {
    if i < |s| && IsDigit(s[i]) then DigitRunEnd(s, i + 1) else i
  }

  /**
   * `\d+_` matched from `i`: the index just past the underscore. The greedy `\d+` can
   * only be followed by `_` at the end of the longest run, so backtracking never finds
   * another match.
   */
  function GroupEnd(s: string, i: nat): (r: Option<nat>)
    requires i <= |s|
    ensures r.Some? ==> i + 2 <= r.value <= |s|
  {
    var j := DigitRunEnd(s, i);
    if i < j < |s| && s[j] == '_' then Some(j + 1) else None
  }

  /** The middle group of a match that starts at `p`, if one does. */
  function MatchAt(s: string, p: nat): Option<string>
    requires p < |s|
  {
    if s[p] != '/' then None
    else match GroupEnd(s, p + 1)
      case None => None
      case Some(a1) =>
        match GroupEnd(s, a1)
        case None => None
        case Some(b1) => if GroupEnd(s, b1).Some? then Some(s[a1..b1 - 1]) else None
  }

  /** The middle group of the leftmost match at or after `from` (what `String.match` finds). */
  function FirstMatch(s: string, from: nat): Option<string>
    decreases |s| - from
  {
    if from >= |s| then None
    else if MatchAt(s, from).Some? then MatchAt(s, from)
    else FirstMatch(s, from + 1)
  }

  /** `getFbImageId`: the middle number of the first match, or the url itself. */
  function FbImageId(url: string): string
  {
    match FirstMatch(url, 0)
    case Some(id) => id
    case None => url
  }

  lemma UnderscoreIsNotDigit()
    ensures !IsDigit('_')
  {
  }

  /** A digit run closed by an underscore is exactly what `GroupEnd` reads. */
  lemma GroupEndOfRun(s: string, i: int, j: int)
    requires IsDigitRun(s, i, j) && j < |s| && s[j] == '_'
    ensures GroupEnd(s, i) == Some(j + 1)
  {
    UnderscoreIsNotDigit();
    DigitRunEndAt(s, i, j);
  }

  lemma {:induction false} DigitRunEndAt(s: string, i: nat, j: nat)
    requires i <= j < |s| && !IsDigit(s[j])
    requires forall k :: i <= k < j ==> IsDigit(s[k])
    ensures DigitRunEnd(s, i) == j
    decreases j - i
  {
    if i < j {
      DigitRunEndAt(s, i + 1, j);
    }
  }

  /** Every occurrence of the pattern is found by `MatchAt`, with its middle group. */
  lemma MatchAtComplete(s: string, p: int, a: int, b: int, c: int)
    requires PatternAt(s, p, a, b, c)
    ensures MatchAt(s, p) == Some(s[a + 1..b])
  {
    GroupEndOfRun(s, p + 1, a);
    GroupEndOfRun(s, a + 1, b);
    GroupEndOfRun(s, b + 1, c);
  }

  /** What `MatchAt` finds is an occurrence of the pattern. */
  lemma MatchAtSound(s: string, p: nat)
    requires p < |s| && MatchAt(s, p).Some?
    ensures exists a, b, c :: PatternAt(s, p, a, b, c) && MatchAt(s, p).value == s[a + 1..b]
  {
    var a1 := GroupEnd(s, p + 1).value;
    var b1 := GroupEnd(s, a1).value;
    var c1 := GroupEnd(s, b1).value;
    assert PatternAt(s, p, a1 - 1, b1 - 1, c1 - 1);
  }

  lemma {:induction false} FirstMatchFinds(s: string, from: nat, p: int, a: int, b: int, c: int)
    requires from <= p && PatternAt(s, p, a, b, c)
    requires forall q, a', b', c' :: from <= q < p ==> !PatternAt(s, q, a', b', c')
    ensures FirstMatch(s, from) == Some(s[a + 1..b])
    decreases p - from
  {
    if from == p {
      MatchAtComplete(s, p, a, b, c);
    } else {
      if MatchAt(s, from).Some? {
        MatchAtSound(s, from);
        assert false;
      }
      FirstMatchFinds(s, from + 1, p, a, b, c);
    }
  }

  lemma {:induction false} FirstMatchMisses(s: string, from: nat)
    requires forall q, a, b, c :: from <= q ==> !PatternAt(s, q, a, b, c)
    ensures FirstMatch(s, from) == None
    decreases |s| - from
  {
    if from < |s| {
      if MatchAt(s, from).Some? {
        MatchAtSound(s, from);
        assert false;
      }
      FirstMatchMisses(s, from + 1);
    }
  }

  /** The id is the middle number of the leftmost occurrence of the pattern. */
  lemma FbImageIdOfLeftmostMatch(url: string, p: int, a: int, b: int, c: int)
    requires PatternAt(url, p, a, b, c)
    requires forall q, a', b', c' :: 0 <= q < p ==> !PatternAt(url, q, a', b', c')
    ensures FbImageId(url) == url[a + 1..b]
  {
    FirstMatchFinds(url, 0, p, a, b, c);
  }

  /** A url without the pattern is its own id. */
  lemma FbImageIdWithoutMatch(url: string)
    requires forall p, a, b, c :: !PatternAt(url, p, a, b, c)
    ensures FbImageId(url) == url
  {
    FirstMatchMisses(url, 0);
  }

  /** The file name layout the scraper expects: the photo id is the middle number. */
  lemma FbImageIdExample()
    ensures FbImageId("/12_345_6_n.jpg") == "345"
  {
    var url := "/12_345_6_n.jpg";
    ExamplePattern(url);
    FbImageIdOfLeftmostMatch(url, 0, 3, 7, 9);
    assert url[4..7] == "345";
  }

  /** A url that does not follow the layout is its own id. */
  lemma FbImageIdExampleWithoutId()
    ensures FbImageId("/photo_1.jpg") == "/photo_1.jpg"
  {
    var url := "/photo_1.jpg";
    forall p, a, b, c
      ensures !PatternAt(url, p, a, b, c)
    {
      if 0 <= p < |url| && url[p] == '/' {
        assert p == 0 && !IsDigit(url[1]);
      }
    }
    FbImageIdWithoutMatch(url);
  }

  lemma ExamplePattern(url: string)
    requires url == "/12_345_6_n.jpg"
    ensures PatternAt(url, 0, 3, 7, 9)
  {
    assert IsDigitRun(url, 1, 3);
    assert IsDigitRun(url, 4, 7);
    assert IsDigitRun(url, 8, 9);
  }

  // ---------------------------------------------------------------------------------
  // The Facebook branch: one url per photo id
  // ---------------------------------------------------------------------------------

  /**
   * The `seenIds` loop over `rawImages`: the first url of each photo id, in order. No two
   * kept urls share an id, every id of the input keeps a url, and each kept url is the
   * first one with its id.
   */
  method DedupFacebookImages(rawImages: seq<string>) returns (images: seq<string>)
    ensures images == DedupBy(rawImages, FbImageId)
    ensures forall i, j :: 0 <= i < j < |images| ==> FbImageId(images[i]) != FbImageId(images[j])
    ensures KeySet(images, FbImageId) == KeySet(rawImages, FbImageId)
    ensures IsSubseq(images, rawImages) && |images| <= |rawImages|
    ensures KeepsFirst(rawImages, FbImageId, images)
  {
    var seenIds: set<string> := {};
    images := [];
    for i := 0 to |rawImages|
      invariant images == DedupBy(rawImages[..i], FbImageId)
      invariant seenIds == KeySet(rawImages[..i], FbImageId)
    {
      var url := rawImages[i];
      var id := FbImageId(url);
      DedupBySnoc(rawImages[..i], FbImageId, url);
      assert rawImages[..i + 1] == rawImages[..i] + [url];
      if id !in seenIds {
        seenIds := seenIds + {id};
        images := images + [url];
      }
    }
    assert rawImages[..|rawImages|] == rawImages;
    DedupByIsSubseq(rawImages, FbImageId);
    SubseqMembers(images, rawImages);
    DedupByKeepsFirst(rawImages, FbImageId);
  }

  // ---------------------------------------------------------------------------------
  // The generic branch: the longest text
  // ---------------------------------------------------------------------------------

  /**
   * What the `bestText` loop ends with: a candidate replaces the best so far only when
   * its UTF-16 length (`.length`) is strictly greater.
   */
  function Longest(texts: seq<string>): string
  {
    if texts == [] then ""
    else
      var best := Longest(Init(texts));
      if Utf16Length(Last(texts)) > Utf16Length(best) then Last(texts) else best
  }

  /** The pick is the empty string or one of the candidates. */
  lemma {:induction false} LongestIsCandidate(texts: seq<string>)
    ensures Longest(texts) == "" || Longest(texts) in texts
  {
    if texts != [] {
      LongestIsCandidate(Init(texts));
      assert texts == Init(texts) + [Last(texts)];
    }
  }

  /** No candidate is longer than the pick. */
  lemma {:induction false} LongestIsMaximal(texts: seq<string>)
    ensures forall i :: 0 <= i < |texts| ==> Utf16Length(texts[i]) <= Utf16Length(Longest(texts))
  {
    if texts != [] {
      LongestIsMaximal(Init(texts));
      assert forall i :: 0 <= i < |texts| - 1 ==> texts[i] == Init(texts)[i];
    }
  }

  /** Among candidates of maximal length, the first one wins. */
  lemma {:induction false} LongestIsFirstMaximal(texts: seq<string>, i: int)
    requires 0 <= i < |texts| && Utf16Length(texts[i]) > 0
    requires forall j :: 0 <= j < |texts| ==> Utf16Length(texts[j]) <= Utf16Length(texts[i])
    requires forall j :: 0 <= j < i ==> Utf16Length(texts[j]) < Utf16Length(texts[i])
    ensures Longest(texts) == texts[i]
  {
    var p := Init(texts);
    if i == |texts| - 1 {
      LongestIsCandidate(p);
      if Longest(p) != "" {
        var j :| 0 <= j < |p| && p[j] == Longest(p);
        assert texts[j] == p[j];
      }
    } else {
      assert forall j :: 0 <= j < |p| ==> p[j] == texts[j];
      LongestIsFirstMaximal(p, i);
      assert Last(texts) == texts[|texts| - 1];
    }
  }

  /** When every candidate is empty the pick stays `""`. */
  lemma LongestOfBlanks(texts: seq<string>)
    requires forall i :: 0 <= i < |texts| ==> texts[i] == ""
    ensures Longest(texts) == ""
  {
    LongestIsCandidate(texts);
  }

  /**
   * The generic description: the longest candidate text, kept only when it is longer
   * than 50 UTF-16 code units; otherwise the description stays empty.
   */
  method GenericDescription(texts: seq<string>) returns (description: string)
    ensures Utf16Length(Longest(texts)) > 50 ==> description == Longest(texts)
    ensures Utf16Length(Longest(texts)) <= 50 ==> description == ""
    ensures description == "" || (description in texts && Utf16Length(description) > 50)
  {
    var bestText := "";
    for i := 0 to |texts|
      invariant bestText == Longest(texts[..i])
    {
      assert Init(texts[..i + 1]) == texts[..i];
      if Utf16Length(texts[i]) > Utf16Length(bestText) {
        bestText := texts[i];
      }
    }
    assert texts[..|texts|] == texts;
    description := "";
    if Utf16Length(bestText) > 50 {
      description := bestText;
      LongestIsCandidate(texts);
    }
  }

  // ---------------------------------------------------------------------------------
  // The generic branch: large images, each source once
  // ---------------------------------------------------------------------------------

  /** An `<img>` element as the scraper reads it. */
  datatype Img = Img(src: string, width: int, height: int)

  /** Both sides strictly above 300 pixels. */
  predicate IsLarge(img: Img)
  {
    img.width > 300 && img.height > 300
  }

  function Srcs(imgs: seq<Img>): (r: seq<string>)
    ensures |r| == |imgs| && forall i :: 0 <= i < |imgs| ==> r[i] == imgs[i].src
  {
    seq(|imgs|, i requires 0 <= i < |imgs| => imgs[i].src)
  }

  /** The sources the generic loop collects: those of large images, first occurrences only. */
  function LargeSrcs(imgs: seq<Img>): seq<string>
  {
    Dedup(Srcs(Filter(imgs, IsLarge)))
  }

  /** The sources already collected from `imgs`: the generic loop's `seen` set. */
  function SeenSrcs(imgs: seq<Img>): set<string>
  {
    KeySet(Srcs(Filter(imgs, IsLarge)), Id)
  }

  lemma LargeSrcsSnoc(imgs: seq<Img>, img: Img)
    ensures Srcs(Filter(imgs + [img], IsLarge)) ==
            Srcs(Filter(imgs, IsLarge)) + (if IsLarge(img) then [img.src] else [])
  {
    assert Init(imgs + [img]) == imgs;
  }

  /** One more image: its source is collected when it is large and not yet seen. */
  lemma LargeSrcsStep(imgs: seq<Img>, img: Img)
    ensures SeenSrcs(imgs + [img]) == SeenSrcs(imgs) + (if IsLarge(img) then {img.src} else {})
    ensures LargeSrcs(imgs + [img]) ==
            if IsLarge(img) && img.src !in SeenSrcs(imgs) then LargeSrcs(imgs) + [img.src]
            else LargeSrcs(imgs)
  {
    LargeSrcsSnoc(imgs, img);
    if IsLarge(img) {
      DedupBySnoc(Srcs(Filter(imgs, IsLarge)), Id, img.src);
    } else {
      assert Srcs(Filter(imgs + [img], IsLarge)) == Srcs(Filter(imgs, IsLarge));
    }
  }

  /**
   * The `seen` loop over all images: the sources of the images larger than 300 by 300,
   * each once, in the order they first appear.
   */
  method GenericImages(imgs: seq<Img>) returns (images: seq<string>)
    ensures images == LargeSrcs(imgs)
  {
    var seen: set<string> := {};
    images := [];
    for i := 0 to |imgs|
      invariant images == LargeSrcs(imgs[..i])
      invariant seen == SeenSrcs(imgs[..i])
    {
      var img := imgs[i];
      assert imgs[..i + 1] == imgs[..i] + [img];
      LargeSrcsStep(imgs[..i], img);
      if img.width > 300 && img.height > 300 && !(img.src in seen) {
        seen := seen + {img.src};
        images := images + [img.src];
      }
    }
    assert imgs[..|imgs|] == imgs;
  }

  /** A source is collected exactly when some large image has it, and only once. */
  lemma LargeSrcsMembers(imgs: seq<Img>)
    ensures forall s :: s in LargeSrcs(imgs) <==> exists img :: img in imgs && IsLarge(img) && img.src == s
    ensures forall i, j :: 0 <= i < j < |LargeSrcs(imgs)| ==> LargeSrcs(imgs)[i] != LargeSrcs(imgs)[j]
  {
    var large := Filter(imgs, IsLarge);
    DedupMembers(Srcs(large));
    FilterMembers(imgs, IsLarge);
    forall s
      ensures s in Srcs(large) <==> exists img :: img in imgs && IsLarge(img) && img.src == s
    {
      if s in Srcs(large) {
        var k :| 0 <= k < |large| && Srcs(large)[k] == s;
        assert large[k] in large;
      }
      if exists img :: img in imgs && IsLarge(img) && img.src == s {
        var img :| img in imgs && IsLarge(img) && img.src == s;
        var k :| 0 <= k < |large| && large[k] == img;
        assert Srcs(large)[k] == s;
      }
    }
  }

  /** The collected sources keep the order in which they first appear among large images. */
  lemma LargeSrcsOrder(imgs: seq<Img>)
    ensures IsSubseq(LargeSrcs(imgs), Srcs(Filter(imgs, IsLarge)))
    ensures InFirstOccurrenceOrder(Srcs(Filter(imgs, IsLarge)), Id, LargeSrcs(imgs))
  {
    DedupByIsSubseq(Srcs(Filter(imgs, IsLarge)), Id);
    DedupByInFirstOccurrenceOrder(Srcs(Filter(imgs, IsLarge)), Id);
  }

  // ---------------------------------------------------------------------------------
  // The reply
  // ---------------------------------------------------------------------------------

  /** `!!(data.description || data.images.length)`. */
  function Success(description: string, images: seq<string>): bool
  {
    description != "" || |images| != 0
  }

  /** On Facebook, the scrape succeeds when there is a description or any raw image url. */
  lemma FacebookSuccess(description: string, rawImages: seq<string>)
    ensures Success(description, DedupBy(rawImages, FbImageId)) <==> description != "" || rawImages != []
  {
    if rawImages != [] {
      assert rawImages[0] in rawImages;
      assert FbImageId(rawImages[0]) in KeySet(rawImages, FbImageId);
    }
  }

  /** The generic description is non-empty exactly when some candidate exceeds 50 code units. */
  lemma LongTextExists(texts: seq<string>)
    ensures Utf16Length(Longest(texts)) > 50 <==> exists i :: 0 <= i < |texts| && Utf16Length(texts[i]) > 50
  {
    LongestIsMaximal(texts);
    LongestIsCandidate(texts);
    if Utf16Length(Longest(texts)) > 50 {
      var i :| 0 <= i < |texts| && texts[i] == Longest(texts);
    }
  }

  /** Some source is collected exactly when some image is larger than 300 by 300. */
  lemma LargeImageExists(imgs: seq<Img>)
    ensures LargeSrcs(imgs) != [] <==> exists img :: img in imgs && IsLarge(img)
  {
    LargeSrcsMembers(imgs);
    if LargeSrcs(imgs) != [] {
      assert LargeSrcs(imgs)[0] in LargeSrcs(imgs);
    }
    if exists img :: img in imgs && IsLarge(img) {
      var img :| img in imgs && IsLarge(img);
      assert img.src in LargeSrcs(imgs);
    }
  }

  /**
   * In the generic fallback, the scrape succeeds when some candidate text is longer than
   * 50 UTF-16 code units or some image is larger than 300 by 300.
   */
  lemma GenericSuccess(texts: seq<string>, imgs: seq<Img>)
    ensures Success(if Utf16Length(Longest(texts)) > 50 then Longest(texts) else "", LargeSrcs(imgs))
            <==> (exists i :: 0 <= i < |texts| && Utf16Length(texts[i]) > 50) ||
                 (exists img :: img in imgs && IsLarge(img))
  {
    LongTextExists(texts);
    LargeImageExists(imgs);
  }
}
