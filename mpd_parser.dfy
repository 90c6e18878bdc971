/** Manifest post-processing in parse_mpd (Streaming-Client/build/src/mpd_parser.c):
    the base URL of the manifest, the Representation whose frame rate and
    frame list are used, the number of frames, and the frame URLs. The
    document arrives already parsed, as a tree of nodes; fetching it and
    parsing the XML are not part of this model. */
module MpdParser {
  import opened Prelude

  /** snprintf into char full[1024] keeps at most 1023 characters. */
  const MAX_URL: nat := 1023

  /** An XML node: an element with its name, attributes and children, or
      any other kind of node (text, comments), which the walk skips. */
  datatype Node = Element(name: string, attrs: map<string, string>, children: seq<Node>) | NonElement

  /** The fields of MPDInfo. */
  datatype MpdInfo = MpdInfo(frameRate: int, totalFrames: int, frameUrls: seq<string>)

  function Children(n: Node): seq<Node>
  {
    if n.Element? then n.children else []
  }

  predicate IsElement(n: Node, name: string)
  {
    n.Element? && n.name == name
  }

  // ---------------------------------------------------------------------
  // get_base_url
  // ---------------------------------------------------------------------

  /** strrchr(s, '/'): the index of the last slash. */
  function LastSlash(s: string): (r: Option<nat>)
    ensures r.Some? ==> r.value < |s| && s[r.value] == '/' && forall j | r.value < j < |s| :: s[j] != '/'
    ensures r.None? ==> forall j | 0 <= j < |s| :: s[j] != '/'
    decreases |s|
  {
    if s == [] then None
    else if s[|s| - 1] == '/' then Some(|s| - 1)
    else LastSlash(s[..|s| - 1])
  }

  /** The directory of the manifest URL, with its trailing slash: "./"
      when the URL has no slash. */
  function GetBaseUrl(url: string): string
  {
    match LastSlash(url)
    case None => "./"
    case Some(i) => url[..i + 1]
  }

  /** The base URL ends in a slash. It is "./" when the URL has no slash;
      otherwise it is the URL up to and including its last slash. */
  lemma {:induction false} BaseUrlShape(url: string)
    ensures var b := GetBaseUrl(url);
      && |b| > 0 && b[|b| - 1] == '/'
      && ((forall j | 0 <= j < |url| :: url[j] != '/') ==> b == "./")
      && ((exists j | 0 <= j < |url| :: url[j] == '/') ==>
            |b| <= |url| && b == url[..|b|] && forall j | |b| <= j < |url| :: url[j] != '/')
  {
  }

  /** Taking the base of a base changes nothing. */
  lemma {:induction false} BaseUrlIdempotent(url: string)
    ensures GetBaseUrl(GetBaseUrl(url)) == GetBaseUrl(url)
  {
    var b := GetBaseUrl(url);
    assert b[|b| - 1] == '/';
    assert LastSlash(b) == Some(|b| - 1);
    assert b[..|b|] == b;
  }

  // ---------------------------------------------------------------------
  // The Representation
  // ---------------------------------------------------------------------

  /** The first Representation element among an AdaptationSet's children. */
  function FirstRepresentation(nodes: seq<Node>): (r: Option<Node>)
    ensures r.Some? ==> IsElement(r.value, "Representation") && r.value in nodes
    decreases |nodes|
  {
    if nodes == [] then None
    else if IsElement(nodes[0], "Representation") then Some(nodes[0])
    else FirstRepresentation(nodes[1..])
  }

  /** An AdaptationSet element that has a Representation. */
  predicate Offers(n: Node)
  {
    IsElement(n, "AdaptationSet") && FirstRepresentation(n.children).Some?
  }

  /** The Representation the walk ends with: every AdaptationSet that has
      one replaces the earlier choice, because the break leaves only the
      inner loop. */
  function Chosen(sets: seq<Node>): Option<Node>
    decreases |sets|
  {
    if sets == [] then None
    else
      var last := sets[|sets| - 1];
      if Offers(last) then FirstRepresentation(last.children) else Chosen(sets[..|sets| - 1])
  }

  /** The choice is the first Representation of the last AdaptationSet
      that has any; there is none exactly when no AdaptationSet has one. */
  lemma {:induction false} ChosenIsFromLastSet(sets: seq<Node>) returns (i: nat)
    ensures Chosen(sets).None? <==> forall j | 0 <= j < |sets| :: !Offers(sets[j])
    ensures Chosen(sets).Some? ==>
      && i < |sets| && Offers(sets[i]) && Chosen(sets) == FirstRepresentation(sets[i].children)
      && forall j | i < j < |sets| :: !Offers(sets[j])
    decreases |sets|
  {
    i := 0;
    if sets != [] {
      var init := sets[..|sets| - 1];
      if Offers(sets[|sets| - 1]) {
        i := |sets| - 1;
      } else {
        i := ChosenIsFromLastSet(init);
        assert forall j | 0 <= j < |init| :: sets[j] == init[j];
      }
    }
  }

  /** The walk of parse_mpd over the root's children. */
  method SelectRepresentation(root: Node) returns (rep: Option<Node>)
    ensures rep == Chosen(Children(root))
  {
    var sets := Children(root);
    rep := None;
    var i := 0;
    while i < |sets|
      invariant 0 <= i <= |sets| && rep == Chosen(sets[..i])
    {
      var adaptation := sets[i];
      if IsElement(adaptation, "AdaptationSet") {
        var kids := adaptation.children;
        var j := 0;
        while j < |kids|
          invariant 0 <= j <= |kids| && FirstRepresentation(kids) == FirstRepresentation(kids[j..])
        {
          if IsElement(kids[j], "Representation") {
            rep := Some(kids[j]);
            break;
          }
          assert kids[j..][1..] == kids[j + 1..];
          j := j + 1;
        }
      }
      assert sets[..i + 1][..i] == sets[..i];
      i := i + 1;
    }
    assert sets[..i] == sets;
  }

  // ---------------------------------------------------------------------
  // The frame count
  // ---------------------------------------------------------------------

  predicate IsSpace(c: char)
  {
    c == ' ' || c == '\t' || c == '\n' || c == '\r' || c == '\U{000B}' || c == '\U{000C}'
  }

  predicate IsDigit(c: char)
  {
    '0' <= c <= '9'
  }

  /** The white space at the front of s. */
  function SpaceCount(s: string): (k: nat)
    ensures k <= |s|
    decreases |s|
  {
    if s != [] && IsSpace(s[0]) then 1 + SpaceCount(s[1..]) else 0
  }

  /** The digits at the front of s. */
  function DigitCount(s: string): (k: nat)
    ensures k <= |s|
    decreases |s|
  {
    if s != [] && IsDigit(s[0]) then 1 + DigitCount(s[1..]) else 0
  }

  /** The value of a run of decimal digits. */
  function DigitsValue(ds: string): nat
    decreases |ds|
  {
    if ds == [] then 0
    else DigitsValue(ds[..|ds| - 1]) * 10 + (if IsDigit(ds[|ds| - 1]) then ds[|ds| - 1] as int - '0' as int else 0)
  }

  /** A decimal number as sscanf's %d and atoi read it: optional white
      space, an optional sign and at least one digit. The value and what
      follows it, or None when no digit comes. */
  function ScanInt(s: string): Option<(int, string)>
  {
    var t := s[SpaceCount(s)..];
    var signed := t != [] && (t[0] == '-' || t[0] == '+');
    var u := if signed then t[1..] else t;
    var k := DigitCount(u);
    if k == 0 then None
    else
      var v := DigitsValue(u[..k]);
      Some((if signed && t[0] == '-' then -(v as int) else v, u[k..]))
  }

  /** atoi: the number at the front of s, or 0 when there is none. */
  function Atoi(s: string): int
  {
    match ScanInt(s)
    case None => 0
    case Some((v, _)) => v
  }

  /** A non-empty run of decimal digits. */
  predicate AllDigits(d: string)
  {
    |d| > 0 && forall k | 0 <= k < |d| :: IsDigit(d[k])
  }

  /** The decimal digits of n, as the manifest writes a number. */
  function Decimal(n: nat): (s: string)
    ensures AllDigits(s)
  {
    if n < 10 then [('0' as int + n) as char] else Decimal(n / 10) + [('0' as int + n % 10) as char]
  }

  lemma {:induction false} DigitsValueOfDecimal(n: nat)
    ensures DigitsValue(Decimal(n)) == n
  {
    if n >= 10 {
      DigitsValueOfDecimal(n / 10);
      var s := Decimal(n);
      assert s[..|s| - 1] == Decimal(n / 10);
    }
  }

  /** Digits followed by something that is not a digit: the run ends there. */
  lemma {:induction false} DigitCountAppend(d: string, tail: string)
    requires forall k | 0 <= k < |d| :: IsDigit(d[k])
    requires tail == [] || !IsDigit(tail[0])
    ensures DigitCount(d + tail) == |d|
    decreases |d|
  {
    if d == [] {
      assert d + tail == tail;
    } else {
      DigitCountAppend(d[1..], tail);
      assert (d + tail)[1..] == d[1..] + tail;
    }
  }

  /** A run of digits followed by anything but a digit is read back as its
      value, with the rest. */
  lemma {:induction false} ScanDigits(d: string, tail: string)
    requires AllDigits(d)
    requires tail == [] || !IsDigit(tail[0])
    ensures ScanInt(d + tail) == Some((DigitsValue(d) as int, tail))
  {
    var s := d + tail;
    assert s[0] == d[0] && IsDigit(d[0]);
    assert SpaceCount(s) == 0 && s[0..] == s;
    DigitCountAppend(d, tail);
    assert s[..|d|] == d && s[|d|..] == tail;
  }

  /** The same behind a minus sign: the value is negated. */
  lemma {:induction false} ScanNegativeDigits(d: string, tail: string)
    requires AllDigits(d)
    requires tail == [] || !IsDigit(tail[0])
    ensures ScanInt("-" + d + tail) == Some((-(DigitsValue(d) as int), tail))
  {
    var s := d + tail;
    var m := "-" + d + tail;
    assert m[0] == '-' && SpaceCount(m) == 0 && m[0..] == m;
    assert m[1..] == s;
    DigitCountAppend(d, tail);
    assert s[..|d|] == d && s[|d|..] == tail;
  }

  /** atoi reads back any number written in decimal, with or without a
      leading minus sign. */
  lemma {:induction false} AtoiOfDecimal(n: nat)
    ensures Atoi(Decimal(n)) == n
    ensures Atoi("-" + Decimal(n)) == -(n as int)
  {
    var d := Decimal(n);
    ScanDigits(d, []);
    ScanNegativeDigits(d, []);
    DigitsValueOfDecimal(n);
    assert d + [] == d;
    assert "-" + d + [] == "-" + d;
  }

  /** sscanf(dur, "PT%*dM%dS", &seconds) with seconds starting at 0: the
      minutes are matched and discarded, and seconds is set once the second
      number is read, whatever follows it. */
  function DurationSeconds(dur: Option<string>): int
  {
    if dur.None? || |dur.value| < 2 || dur.value[..2] != "PT" then 0
    else match ScanInt(dur.value[2..])
      case None => 0
      case Some((_, rest)) =>
        if rest == [] || rest[0] != 'M' then 0
        else match ScanInt(rest[1..])
          case None => 0
          case Some((v, _)) => v
  }

  /** The duration once both numbers have been scanned: the second one. */
  lemma {:induction false} DurationFromScans(d: string, rest: string, v: int)
    requires |d| >= 2 && d[..2] == "PT"
    requires ScanInt(d[2..]).Some? && ScanInt(d[2..]).value.1 == rest
    requires rest != [] && rest[0] == 'M' && ScanInt(rest[1..]).Some? && ScanInt(rest[1..]).value.0 == v
    ensures DurationSeconds(Some(d)) == v
  {
  }

  /** A duration of some minutes and some seconds gives the seconds: the
      minutes are discarded. */
  lemma {:induction false} MinutesDiscarded(mins: string, secs: string)
    requires AllDigits(mins) && AllDigits(secs)
    ensures DurationSeconds(Some("PT" + mins + "M" + secs + "S")) == DigitsValue(secs)
  {
    var tail := "M" + secs + "S";
    var d := "PT" + mins + tail;
    assert "PT" + mins + "M" + secs + "S" == d;
    assert |d| >= 2 && d[..2] == "PT";
    assert ScanInt(d[2..]) == Some((DigitsValue(mins) as int, tail)) by {
      assert d[2..] == mins + tail;
      ScanDigits(mins, tail);
    }
    assert ScanInt(tail[1..]) == Some((DigitsValue(secs) as int, "S")) by {
      assert tail[1..] == secs + "S";
      ScanDigits(secs, "S");
    }
    DurationFromScans(d, tail, DigitsValue(secs));
  }

  /** A duration written in seconds alone gives 0: the first number is
      taken for the minutes and no 'M' follows it. */
  lemma {:induction false} SecondsAloneGiveZero(secs: string)
    requires AllDigits(secs)
    ensures DurationSeconds(Some("PT" + secs + "S")) == 0
  {
    var d := "PT" + secs + "S";
    assert |d| >= 2 && d[..2] == "PT";
    assert d[2..] == secs + "S";
    ScanDigits(secs, "S");
  }

  /** The frame rate: the Representation's frameRate attribute, read with
      atoi; 0 when there is no Representation or no attribute. */
  function FrameRate(rep: Option<Node>): int
  {
    if rep.Some? && rep.value.Element? && "frameRate" in rep.value.attrs then Atoi(rep.value.attrs["frameRate"]) else 0
  }

  /** The declared number of frames. */
  function TotalFrames(frameRate: int, seconds: int): (n: int)
    ensures n >= 0
    ensures n > 0 <==> frameRate > 0 && seconds > 0
    ensures n > 0 ==> n == frameRate * seconds && n >= frameRate && n >= seconds
  {
    if frameRate > 0 && seconds > 0 then MulAtLeast(frameRate, seconds); frameRate * seconds else 0
  }

  lemma {:induction false} MulAtLeast(a: nat, b: nat)
    requires a > 0 && b > 0
    ensures a * b >= a && a * b >= b && a * b > 0
  {
    MulMono(1, a, b);
    MulMono(1, b, a);
  }

  // ---------------------------------------------------------------------
  // The frame URLs
  // ---------------------------------------------------------------------

  /** The media attributes of the FrameURL elements among nodes, in order;
      a FrameURL without one contributes nothing. */
  function MediaOf(nodes: seq<Node>): seq<string>
    decreases |nodes|
  {
    if nodes == [] then []
    else
      var n := nodes[|nodes| - 1];
      MediaOf(nodes[..|nodes| - 1]) + (if IsElement(n, "FrameURL") && "media" in n.attrs then [n.attrs["media"]] else [])
  }

  /** The media attributes in all the FrameLists of a Representation, in
      document order. */
  function Media(lists: seq<Node>): seq<string>
    decreases |lists|
  {
    if lists == [] then []
    else
      var n := lists[|lists| - 1];
      Media(lists[..|lists| - 1]) + (if IsElement(n, "FrameList") then MediaOf(n.children) else [])
  }

  /** snprintf's "%s%s" into 1024 bytes: the base and the media joined and
      cut to 1023 characters. */
  function FrameUrl(base: string, media: string): (u: string)
    ensures |u| == (if |base + media| <= MAX_URL then |base + media| else MAX_URL)
    ensures u == (base + media)[..|u|]
    ensures |base + media| <= MAX_URL ==> u == base + media
  {
    var full := base + media;
    if |full| <= MAX_URL then full else full[..MAX_URL]
  }

  function FrameUrls(base: string, media: seq<string>): (us: seq<string>)
    ensures |us| == |media|
  {
    seq(|media|, k requires 0 <= k < |media| => FrameUrl(base, media[k]))
  }

  /** At most n of the given items, the first ones. */
  function Capped<T>(s: seq<T>, n: int): seq<T>
  {
    if |s| <= n then s else if n <= 0 then [] else s[..n]
  }

  lemma {:induction false} CappedSnoc<T>(s: seq<T>, x: T, n: int)
    ensures Capped(s + [x], n) == if |s| < n then Capped(s, n) + [x] else Capped(s, n)
  {
    if |s| >= n && n > 0 {
      assert (s + [x])[..n] == s[..n];
    }
  }

  lemma {:induction false} FrameUrlsSnoc(base: string, media: seq<string>, m: string)
    ensures FrameUrls(base, media + [m]) == FrameUrls(base, media) + [FrameUrl(base, m)]
  {
    var l, r := FrameUrls(base, media + [m]), FrameUrls(base, media) + [FrameUrl(base, m)];
    assert forall k | 0 <= k < |l| :: l[k] == r[k];
  }

  /** One more FrameURL node adds its media attribute, if it has one. */
  lemma {:induction false} MediaOfStep(nodes: seq<Node>, j: nat)
    requires j < |nodes|
    ensures MediaOf(nodes[..j + 1]) == MediaOf(nodes[..j]) +
      (if IsElement(nodes[j], "FrameURL") && "media" in nodes[j].attrs then [nodes[j].attrs["media"]] else [])
  {
    assert nodes[..j + 1][..j] == nodes[..j];
  }

  /** One more FrameList adds the media attributes of its FrameURLs. */
  lemma {:induction false} MediaStep(lists: seq<Node>, i: nat)
    requires i < |lists|
    ensures Media(lists[..i + 1]) == Media(lists[..i]) +
      (if IsElement(lists[i], "FrameList") then MediaOf(lists[i].children) else [])
  {
    assert lists[..i + 1][..i] == lists[..i];
  }

  /** Taking one more URL while fewer than total are held. */
  lemma {:induction false} TakeStep(base: string, seen: seq<string>, m: string, total: int, urls: seq<string>)
    requires urls == Capped(FrameUrls(base, seen), total)
    ensures Capped(FrameUrls(base, seen + [m]), total) == if |urls| < total then urls + [FrameUrl(base, m)] else urls
  {
    FrameUrlsSnoc(base, seen, m);
    CappedSnoc(FrameUrls(base, seen), FrameUrl(base, m), total);
  }

  /** One turn of the inner collection loop, at node j. */
  lemma {:induction false} ListStep(nodes: seq<Node>, j: nat, base: string, total: int, before: seq<string>, urls: seq<string>)
    requires j < |nodes| && urls == Capped(FrameUrls(base, before + MediaOf(nodes[..j])), total)
    ensures var n := nodes[j];
      Capped(FrameUrls(base, before + MediaOf(nodes[..j + 1])), total) ==
        if IsElement(n, "FrameURL") && "media" in n.attrs && |urls| < total then urls + [FrameUrl(base, n.attrs["media"])] else urls
  {
    var n := nodes[j];
    var seen := before + MediaOf(nodes[..j]);
    MediaOfStep(nodes, j);
    if IsElement(n, "FrameURL") && "media" in n.attrs {
      TakeStep(base, seen, n.attrs["media"], total, urls);
      assert before + MediaOf(nodes[..j + 1]) == seen + [n.attrs["media"]];
    } else {
      assert before + MediaOf(nodes[..j + 1]) == seen;
    }
  }

  /** The inner collection loop of parse_mpd, over one FrameList's
      children: each FrameURL with a media attribute gives a URL while
      fewer than total are held. */
  method CollectFromList(nodes: seq<Node>, base: string, total: int, urls0: seq<string>, ghost before: seq<string>)
    returns (urls: seq<string>)
    requires urls0 == Capped(FrameUrls(base, before), total)
    ensures urls == Capped(FrameUrls(base, before + MediaOf(nodes)), total)
  {
    urls := urls0;
    var j := 0;
    assert before + MediaOf(nodes[..0]) == before;
    while j < |nodes|
      invariant 0 <= j <= |nodes|
      invariant urls == Capped(FrameUrls(base, before + MediaOf(nodes[..j])), total)
    {
      var fu := nodes[j];
      ListStep(nodes, j, base, total, before, urls);
      if IsElement(fu, "FrameURL") && "media" in fu.attrs {
        var m := fu.attrs["media"];
        if |urls| < total {
          urls := urls + [FrameUrl(base, m)];
        }
      }
      j := j + 1;
    }
    assert nodes[..j] == nodes;
  }

  /** The collection loops of parse_mpd: every FrameURL with a media
      attribute, in every FrameList of the Representation, gives a URL
      while fewer than total have been taken. */
  method CollectUrls(rep: Node, base: string, total: int) returns (urls: seq<string>)
    ensures urls == Capped(FrameUrls(base, Media(Children(rep))), total)
  {
    var lists := Children(rep);
    urls := [];
    var i := 0;
    while i < |lists|
      invariant 0 <= i <= |lists|
      invariant urls == Capped(FrameUrls(base, Media(lists[..i])), total)
    {
      var fl := lists[i];
      MediaStep(lists, i);
      if IsElement(fl, "FrameList") {
        urls := CollectFromList(fl.children, base, total, urls, Media(lists[..i]));
      }
      i := i + 1;
    }
    assert lists[..i] == lists;
  }

  // ---------------------------------------------------------------------
  // parse_mpd
  // ---------------------------------------------------------------------

  /** The seconds parse_mpd reads from the root's mediaPresentationDuration
      attribute; 0 when it is absent. */
  function Duration(root: Node): int
  {
    DurationSeconds(if root.Element? && "mediaPresentationDuration" in root.attrs then Some(root.attrs["mediaPresentationDuration"]) else None)
  }

  /** What parse_mpd returns for a manifest at url whose document is doc
      (None when it could not be fetched or parsed). */
  function Mpd(url: string, doc: Option<Node>): Option<MpdInfo>
  {
    match doc
    case None => None
    case Some(root) =>
      var rep := Chosen(Children(root));
      var rate := FrameRate(rep);
      var declared := TotalFrames(rate, Duration(root));
      var urls := if rep.Some? then Capped(FrameUrls(GetBaseUrl(url), Media(Children(rep.value))), declared) else [];
      Some(MpdInfo(rate, |urls|, urls))
  }

  /** parse_mpd after the document is in hand. */
  method ParseMpd(url: string, doc: Option<Node>) returns (info: Option<MpdInfo>)
    ensures info == Mpd(url, doc)
  {
    if doc.None? {
      return None;
    }
    var root := doc.value;
    var seconds := 0;
    if root.Element? && "mediaPresentationDuration" in root.attrs {
      seconds := DurationSeconds(Some(root.attrs["mediaPresentationDuration"]));
    }
    var rep := SelectRepresentation(root);
    var rate := 0;
    if rep.Some? && rep.value.Element? && "frameRate" in rep.value.attrs {
      rate := Atoi(rep.value.attrs["frameRate"]);
    }
    var total := 0;
    if rate > 0 && seconds > 0 {
      total := rate * seconds;
    }
    var base := GetBaseUrl(url);
    var urls: seq<string> := [];
    if rep.Some? {
      urls := CollectUrls(rep.value, base, total);
    }
    if |urls| != total {
      total := |urls|;
    }
    info := Some(MpdInfo(rate, total, urls));
  }

  /** What the result promises: the frame count is the number of URLs,
      never more than frame_rate times the seconds of the duration; the k-th URL is the base joined
      with the k-th media attribute in document order, cut to 1023
      characters; and all of them are taken when they fit the count. */
  lemma {:induction false} MpdUrls(url: string, root: Node, info: MpdInfo)
    requires Mpd(url, Some(root)) == Some(info)
    ensures var rep := Chosen(Children(root));
      var media := if rep.Some? then Media(Children(rep.value)) else [];
      var declared := TotalFrames(info.frameRate, Duration(root));
      && info.totalFrames == |info.frameUrls| <= declared
      && |info.frameUrls| == (if |media| <= declared then |media| else declared)
      && forall k | 0 <= k < |info.frameUrls| :: info.frameUrls[k] == FrameUrl(GetBaseUrl(url), media[k])
  {
    var rep := Chosen(Children(root));
    var media := if rep.Some? then Media(Children(rep.value)) else [];
    var declared := TotalFrames(FrameRate(rep), Duration(root));
    var all := FrameUrls(GetBaseUrl(url), media);
    assert info.frameUrls == Capped(all, declared);
    forall k | 0 <= k < |info.frameUrls|
      ensures info.frameUrls[k] == FrameUrl(GetBaseUrl(url), media[k])
    {
    }
  }
}
