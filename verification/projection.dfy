/**
 * What a sidebar card shows of a record: the member symbols, one link per
 * source URL labelled by its kind, and an image carousel when the record
 * has a real first image.
 */
module Projection {
  import opened Strings
  import opened Registry
  import opened Locations

  /** The three kinds of source link getUrlDisplayType tells apart. */
  datatype LinkKind = InstagramPost | YouTubeVideo | ExternalPage

  /**
   * getUrlDisplayType: Instagram when the URL mentions instagram.com (checked
   * first), YouTube when it mentions youtube.com or youtu.be, else external.
   */
  function UrlDisplayType(url: string): (kind: LinkKind)
    ensures kind == InstagramPost <==> Occurs(url, "instagram.com")
    ensures kind == YouTubeVideo <==>
              !Occurs(url, "instagram.com") && (Occurs(url, "youtube.com") || Occurs(url, "youtu.be"))
    ensures kind == ExternalPage <==>
              !Occurs(url, "instagram.com") && !Occurs(url, "youtube.com") && !Occurs(url, "youtu.be")
  {
    ContainsIffOccurs(url, "instagram.com");
    ContainsIffOccurs(url, "youtube.com");
    ContainsIffOccurs(url, "youtu.be");
    if Contains(url, "instagram.com") then InstagramPost
    else if Contains(url, "youtube.com") || Contains(url, "youtu.be") then YouTubeVideo
    else ExternalPage
  }

  /** The text getUrlDisplayType gives a link of each kind. */
  function Label(kind: LinkKind): string {
    match kind
    case InstagramPost => "\U{1F517} IG \U{8CBC}\U{6587}"
    case YouTubeVideo => "\U{25B6}\U{FE0F} YouTube"
    case ExternalPage => "\U{1F310} \U{5916}\U{90E8}"
  }

  /** Different kinds get different link texts, so a link's text tells its kind. */
  lemma LabelsDistinct(a: LinkKind, b: LinkKind)
    ensures Label(a) == Label(b) ==> a == b
  {
    if a != b {
      assert Label(a)[0] != Label(b)[0];
    }
  }

  lemma TrimKeeps(s: string, c: char)
    requires c !in s
    ensures c !in Trim(s)
  {
    var i := SkipSpace(s, 0);
    assert Trim(s) == s[i..SkipSpaceBack(s, i, |s|)];
    forall k | 0 <= k < |Trim(s)|
      ensures Trim(s)[k] != c
    {
      assert Trim(s)[k] == s[i + k];
    }
  }

  /** The pieces trimmed, with the ones left empty dropped. */
  function CleanPieces(pieces: seq<string>): (urls: seq<string>)
    requires forall k :: 0 <= k < |pieces| ==> ',' !in pieces[k]
    ensures forall k :: 0 <= k < |urls| ==> urls[k] != "" && Trimmed(urls[k]) && ',' !in urls[k]
    ensures |urls| <= |pieces|
    ensures forall j :: 0 <= j < |pieces| && Trim(pieces[j]) != "" ==> Trim(pieces[j]) in urls
    decreases |pieces|
  {
    if |pieces| == 0 then []
    else
      var u := Trim(pieces[0]);
      TrimKeeps(pieces[0], ',');
      assert forall j :: 0 < j < |pieces| ==> pieces[j] == pieces[1..][j - 1];
      (if u == "" then [] else [u]) + CleanPieces(pieces[1..])
  }

  /**
   * The source URLs of a record: its source string split at the commas,
   * each piece trimmed, and the pieces left empty dropped.
   */
  function SourceUrls(raw: string): (urls: seq<string>)
    ensures forall k :: 0 <= k < |urls| ==> urls[k] != "" && Trimmed(urls[k]) && ',' !in urls[k]
    ensures forall j :: 0 <= j < |Split(raw, ',')| && Trim(Split(raw, ',')[j]) != "" ==>
              Trim(Split(raw, ',')[j]) in urls
  {
    CleanPieces(Split(raw, ','))
  }

  /** Cleaning a list: the first piece's trim, unless it is empty, comes before the rest. */
  lemma CleanPiecesCons(p: string, rest: seq<string>)
    requires ',' !in p
    requires forall k :: 0 <= k < |rest| ==> ',' !in rest[k]
    ensures CleanPieces([p] + rest) == (if Trim(p) == "" then [] else [Trim(p)]) + CleanPieces(rest)
  {
    var pieces := [p] + rest;
    assert pieces[0] == p && pieces[1..] == rest;
  }

  /** A source string without a comma gives its trim, or nothing when the trim is empty. */
  lemma SourceUrlsPiece(p: string)
    requires ',' !in p
    ensures SourceUrls(p) == if Trim(p) == "" then [] else [Trim(p)]
  {
    SplitNone(p, ',');
    CleanPiecesCons(p, []);
    assert [p] + [] == [p];
  }

  /**
   * The URLs of a source string are the URLs before its first comma
   * followed by the URLs after it: pieces keep their original order.
   */
  lemma SourceUrlsConcat(a: string, b: string)
    requires ',' !in a
    ensures SourceUrls(a + "," + b) == SourceUrls(a) + SourceUrls(b)
  {
    SplitAtSeparator(a, b, ',');
    CleanPiecesCons(a, Split(b, ','));
    SourceUrlsPiece(a);
  }

  /** Pieces that are already clean pass through unchanged and in order. */
  lemma {:induction false} CleanPiecesOfClean(urls: seq<string>)
    requires forall k :: 0 <= k < |urls| ==> urls[k] != "" && Trimmed(urls[k]) && ',' !in urls[k]
    ensures CleanPieces(urls) == urls
    decreases |urls|
  {
    if |urls| > 0 {
      var rest := urls[1..];
      assert forall k :: 0 <= k < |rest| ==> rest[k] == urls[k + 1];
      TrimOfTrimmed(urls[0]);
      CleanPiecesOfClean(rest);
      assert urls == [urls[0]] + rest;
      CleanPiecesCons(urls[0], rest);
    }
  }

  /**
   * Splitting a comma-joined list of non-empty, trimmed, comma-free URLs gives
   * back exactly that list, in order.
   */
  lemma SourceUrlsRoundTrip(urls: seq<string>)
    requires forall k :: 0 <= k < |urls| ==> urls[k] != "" && Trimmed(urls[k]) && ',' !in urls[k]
    ensures SourceUrls(Join(urls, ',')) == urls
  {
    if |urls| == 0 {
      assert Split("", ',') == [""];
      assert Trim("") == "";
    } else {
      SplitJoin(urls, ',');
      CleanPiecesOfClean(urls);
    }
  }

  /** The links of a card: one per source URL, in order, each with the text of its kind. */
  function SourceLinks(raw: string): (links: seq<(string, string)>)
    ensures |links| == |SourceUrls(raw)|
    ensures forall k :: 0 <= k < |links| ==> links[k].0 == SourceUrls(raw)[k]
    ensures forall k :: 0 <= k < |links| ==> links[k].1 == Label(UrlDisplayType(links[k].0))
  {
    var urls := SourceUrls(raw);
    seq(|urls|, k requires 0 <= k < |urls| => (urls[k], Label(UrlDisplayType(urls[k]))))
  }

  /** The stand-in the data uses when there is no photo. */
  const PlaceholderImage := "\U{8ACB}\U{81EA}\U{884C}\U{5C0B}\U{627E}\U{7167}\U{7247} URL"

  /** isImageValid: the first image URL exists, is not empty and is not the stand-in. */
  function ImageValid(imageUrls: seq<string>): (valid: bool)
    ensures valid ==> |imageUrls| >= 1
    ensures valid <==> |imageUrls| > 0 && imageUrls[0] !in {"", PlaceholderImage}
  {
    var first := if |imageUrls| > 0 then imageUrls[0] else "";
    first != "" && first != PlaceholderImage
  }

  /** Only the first image URL decides: two lists with the same first URL are both valid or both not. */
  lemma ImageValidFirstOnly(a: seq<string>, b: seq<string>)
    requires |a| > 0 && |b| > 0 && a[0] == b[0]
    ensures ImageValid(a) == ImageValid(b)
  {
  }

  /**
   * One click on a carousel: with at most one image nothing happens,
   * otherwise the index moves on by one and wraps from the last image to the first.
   */
  function NextImage(current: nat, count: nat): (next: nat)
    ensures count <= 1 ==> next == current
    ensures current < count ==> next < count
    ensures count > 1 && current + 1 < count ==> next == current + 1
    ensures count > 1 && current + 1 == count ==> next == 0
  {
    if count <= 1 then current else (current + 1) % count
  }

  /** The index after k clicks; with at most one image it never moves. */
  function Clicks(current: nat, count: nat, k: nat): (index: nat)
    ensures count <= 1 ==> index == current
  {
    if k == 0 then current else NextImage(Clicks(current, count, k - 1), count)
  }

  /** Before the wrap, k clicks move the index k images on. */
  lemma {:induction false} ClicksForward(current: nat, count: nat, k: nat)
    requires current + k < count
    ensures Clicks(current, count, k) == current + k
  {
    if k > 0 {
      ClicksForward(current, count, k - 1);
    }
  }

  /** Clicking a clicks and then b more is clicking a + b times. */
  lemma {:induction false} ClicksCompose(current: nat, count: nat, a: nat, b: nat)
    ensures Clicks(current, count, a + b) == Clicks(Clicks(current, count, a), count, b)
  {
    if b > 0 {
      ClicksCompose(current, count, a, b - 1);
    }
  }

  /** From any image, the clicks up to the last image and one more bring the carousel to the first. */
  lemma ClicksToFirst(current: nat, count: nat)
    requires 1 < count && current < count
    ensures Clicks(current, count, count - current) == 0
  {
    var a := count - 1 - current;
    ClicksForward(current, count, a);
    ClicksCompose(current, count, a, 1);
  }

  /** As many clicks as there are images bring the carousel back to where it was. */
  lemma FullCycle(current: nat, count: nat)
    requires current < count
    ensures Clicks(current, count, count) == current
  {
    if count > 1 {
      ClicksToFirst(current, count);
      ClicksForward(0, count, current);
      ClicksCompose(current, count, count - current, current);
    } else {
      assert Clicks(current, count, 1) == Clicks(current, count, 0);
    }
  }

  /** Clicking reaches every image of a carousel within count clicks. */
  lemma EveryImageReachable(current: nat, count: nat, target: nat)
    requires current < count && target < count
    ensures exists k :: 0 <= k < count && Clicks(current, count, k) == target
  {
    if target >= current {
      ClicksForward(current, count, target - current);
    } else {
      ClicksToFirst(current, count);
      ClicksForward(0, count, target);
      ClicksCompose(current, count, count - current, target);
      assert Clicks(current, count, count - current + target) == target;
    }
  }

  /**
   * The carousel of a record with a real first image starts at index 0
   * within its images, and stays within them however often it is clicked.
   */
  lemma CarouselIndexInRange(loc: Location, k: nat)
    requires ImageValid(loc.imageUrls)
    ensures Clicks(0, |loc.imageUrls|, k) < |loc.imageUrls|
  {
    ClicksInRange(0, |loc.imageUrls|, k);
  }

  lemma {:induction false} ClicksInRange(current: nat, count: nat, k: nat)
    requires current < count
    ensures Clicks(current, count, k) < count
  {
    if k > 0 {
      ClicksInRange(current, count, k - 1);
    }
  }

  /** The symbol of each member, looked up one member at a time. */
  function Symbols(members: seq<string>): (symbols: seq<string>)
    ensures |symbols| == |members|
    ensures forall k :: 0 <= k < |members| ==>
              symbols[k] == InfoFor(Trim(members[k])).symbol && ' ' !in symbols[k]
  {
    seq(|members|, k requires 0 <= k < |members| => GetMemberInfo([members[k]]).symbol)
  }

  /**
   * The card's symbol line: the symbols of the members joined by spaces. A
   * post of one member shows the symbol getMemberInfo gives that member.
   */
  function SymbolLine(members: seq<string>): (line: string)
    ensures |members| == 0 ==> line == ""
    ensures |members| == 1 ==> line == GetMemberInfo(members).symbol
  {
    assert |members| == 1 ==> [members[0]] == members;
    Join(Symbols(members), ' ')
  }

  /**
   * The symbol line as written: each member looked up as written, the
   * symbols joined by spaces. It is the intended line whenever no member's
   * trimmed name is an Object.prototype property.
   */
  function SymbolLineAsWritten(members: seq<string>): (line: string)
    ensures (forall k :: 0 <= k < |members| ==> Trim(members[k]) !in ObjectPrototypeNames) ==>
              line == SymbolLine(members)
  {
    var rendered := seq(|members|, k requires 0 <= k < |members| =>
                          RenderedSymbol(GetMemberInfoAsWritten([members[k]])));
    assert (forall k :: 0 <= k < |members| ==> Trim(members[k]) !in ObjectPrototypeNames) ==>
             rendered == Symbols(members) by {
      if forall k :: 0 <= k < |members| ==> Trim(members[k]) !in ObjectPrototypeNames {
        forall k | 0 <= k < |members|
          ensures rendered[k] == Symbols(members)[k]
        {
          assert [members[k]][0] == members[k];
        }
      }
    }
    Join(rendered, ' ')
  }

  /**
   * The card of a post by a member named like an Object.prototype property
   * shows an empty symbol line as written, where the default symbol was meant.
   */
  lemma AsWrittenCardSymbol(name: string)
    requires name in ObjectPrototypeNames
    ensures SymbolLineAsWritten([name]) == ""
    ensures SymbolLine([name]) == DefaultInfo.symbol
  {
    AsWrittenPrototypeName(name);
  }

  /**
   * A card's symbol line holds one symbol per member, in member order:
   * splitting it at the spaces gives each member's own symbol.
   */
  lemma SymbolLinePerMember(members: seq<string>)
    requires |members| >= 1
    ensures |Split(SymbolLine(members), ' ')| == |members|
    ensures forall k :: 0 <= k < |members| ==>
              Split(SymbolLine(members), ' ')[k] == InfoFor(Trim(members[k])).symbol
  {
    SplitJoin(Symbols(members), ' ');
  }
}
