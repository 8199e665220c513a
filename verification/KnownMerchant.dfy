/** Looking a merchant id up in the raw text of the known-merchants list. */
module KnownMerchant {
  import opened Machine
  import opened ByteSearch

  const QUOTE: Byte := 34
  const CLOSE: Byte := 93

  /** known_merchants */
  const KEY_NAME: seq<Byte> := [107, 110, 111, 119, 110, 95, 109, 101, 114, 99, 104, 97, 110, 116, 115]
  const KEY: seq<Byte> := [QUOTE] + KEY_NAME + [QUOTE]

  // ---- the scanner ----------------------------------------------------------------------------------

  /** id stands at p with a quote on either side. */
  predicate QuotedAt(section: seq<Byte>, id: seq<Byte>, p: int) {
    && 0 < p && p + |id| < |section|
    && section[p - 1] == QUOTE && section[p + |id|] == QUOTE && section[p..p + |id|] == id
  }

  ghost predicate QuotedIn(section: seq<Byte>, id: seq<Byte>) {
    exists p :: QuotedAt(section, id, p)
  }

  /** The text the scanner looks at: from start to end, or to the end of the data. */
  function Window(data: seq<Byte>, start: nat, end: int): seq<Byte>
    requires start <= |data|
  {
    data[start..if end <= start || end > |data| then |data| else end]
  }

  /** The text from the key up to the first closing bracket. */
  function SectionOf(data: seq<Byte>, start: int, end: int): Option<seq<Byte>> {
    if start < 0 || start >= |data| then None
    else
      var window := Window(data, start, end);
      var k := Index(window, KEY);
      if k < 0 then None
      else
        var n := Index(window[k..], [CLOSE]);
        if n < 0 then None else Some(window[k..k + n])
  }

  /** The outcome: None is the slice out of range that an empty id can run into. */
  ghost function Known(data: seq<Byte>, id: seq<Byte>, start: int, end: int): Option<bool> {
    var section := SectionOf(data, start, end);
    if section.None? then Some(false)
    else if QuotedIn(section.value, id) then Some(true)
    else if id == [] then None
    else Some(false)
  }

  /** Scans for occurrences of the id from left to right, overlapping ones included. */
  method KnownMerchantJSON(data: seq<Byte>, id: seq<Byte>, start: int, end: int) returns (r: Option<bool>)
    ensures r == Known(data, id, start, end)
    ensures start < 0 || start >= |data| ==> r == Some(false)
  {
    hide QuotedIn, Index;
    if start < 0 || start >= |data| {
      return Some(false);
    }
    var last := end;
    if end <= start || end > |data| {
      last := |data|;
    }
    var window := data[start..last];
    var knownPos := Index(window, KEY);
    if knownPos < 0 {
      return Some(false);
    }
    var sectionEnd := Index(window[knownPos..], [CLOSE]);
    if sectionEnd < 0 {
      return Some(false);
    }
    r := ScanSection(window[knownPos..knownPos + sectionEnd], id);
  }

  method ScanSection(section: seq<Byte>, id: seq<Byte>) returns (r: Option<bool>)
    ensures r == if QuotedIn(section, id) then Some(true) else if id == [] then None else Some(false)
  {
    var searchStart := 0;
    while searchStart <= |section|
      invariant 0 <= searchStart <= |section| + 1
      invariant searchStart == |section| + 1 ==> id == []
      invariant forall p :: p < searchStart ==> !QuotedAt(section, id, p)
    {
      var idx := Index(section[searchStart..], id);
      NothingSkipped(section, id, searchStart, idx);
      if idx < 0 {
        return Some(false);
      }
      var pos := searchStart + idx;
      if pos > 0 && section[pos - 1] == QUOTE && pos + |id| < |section| && section[pos + |id|] == QUOTE {
        assert QuotedAt(section, id, pos);
        return Some(true);
      }
      searchStart := pos + 1;
    }
    r := None;
  }

  /** Between two search positions there is no quoted occurrence, and where one is found the id stands. */
  lemma NothingSkipped(section: seq<Byte>, id: seq<Byte>, from: nat, idx: int)
    requires from <= |section| && idx == Index(section[from..], id)
    ensures forall p :: from <= p && (p < from + idx || idx == -1) ==> !QuotedAt(section, id, p)
    ensures idx >= 0 ==> from + idx + |id| <= |section| && section[from + idx..from + idx + |id|] == id
    ensures id == [] ==> idx == 0
  {
    var rest := section[from..];
    forall p | from <= p && (p < from + idx || idx == -1)
      ensures !QuotedAt(section, id, p)
    {
      if p + |id| <= |section| {
        assert rest[p - from..p - from + |id|] == section[p..p + |id|];
      }
      assert !OccursAt(rest, id, p - from);
    }
    assert id == [] ==> OccursAt(rest, id, 0);
  }

  // ---- what the scan means on quoted text -----------------------------------------------------------

  ghost predicate IsInner(tokens: seq<seq<Byte>>, id: seq<Byte>) {
    exists i :: 0 < i < |tokens| - 1 && tokens[i] == id
  }

  /** A quote-free id is found exactly when it is the whole text between two neighbouring quotes. */
  lemma {:induction false} QuotedIffInner(tokens: seq<seq<Byte>>, id: seq<Byte>)
    requires tokens != [] && Free(id, QUOTE)
    requires forall i :: 0 <= i < |tokens| ==> Free(tokens[i], QUOTE)
    ensures QuotedIn(Join(QUOTE, tokens), id) <==> IsInner(tokens, id)
  {
    var s := Join(QUOTE, tokens);
    if |tokens| == 1 {
      assert forall p :: 0 <= p < |s| ==> s[p] in tokens[0];
    } else {
      var head, rest := tokens[0], Join(QUOTE, tokens[1..]);
      QuotedIffInner(tokens[1..], id);
      FirstQuote(head, rest, id);
      AfterQuote(tokens[1..], id);
      InnerOfRest(tokens, id);
    }
  }

  /** The id starts the text and a quote follows it. */
  predicate StartsQuoted(rest: seq<Byte>, id: seq<Byte>) {
    |id| < |rest| && rest[..|id|] == id && rest[|id|] == QUOTE
  }

  /** A quoted occurrence starts at the first quote or lies after it. */
  lemma FirstQuote(head: seq<Byte>, rest: seq<Byte>, id: seq<Byte>)
    requires Free(head, QUOTE)
    ensures QuotedIn(head + [QUOTE] + rest, id) <==> StartsQuoted(rest, id) || QuotedIn(rest, id)
  {
    hide QuotedAt, StartsQuoted;
    var s, a := head + [QUOTE] + rest, |head| + 1;
    forall p
      ensures QuotedAt(s, id, p) <==> p >= a && if p == a then StartsQuoted(rest, id) else QuotedAt(rest, id, p - a)
    {
      QuotedAfter(head, rest, id, p);
    }
    forall p | QuotedAt(rest, id, p)
      ensures QuotedAt(s, id, p + a)
    {
      QuotedIsInside(rest, id, p);
    }
    assert StartsQuoted(rest, id) ==> QuotedAt(s, id, a);
  }

  lemma QuotedIsInside(s: seq<Byte>, id: seq<Byte>, p: int)
    requires QuotedAt(s, id, p)
    ensures p > 0
  {
  }

  lemma QuotedAfter(head: seq<Byte>, rest: seq<Byte>, id: seq<Byte>, p: int)
    requires Free(head, QUOTE)
    ensures var s, a := head + [QUOTE] + rest, |head| + 1;
            QuotedAt(s, id, p) <==> p >= a && if p == a then StartsQuoted(rest, id) else QuotedAt(rest, id, p - a)
  {
    var s, a := head + [QUOTE] + rest, |head| + 1;
    assert 0 < p <= |head| ==> s[p - 1] in head;
    if a <= p && p + |id| <= |s| {
      assert s[p..p + |id|] == rest[p - a..p - a + |id|];
    }
  }

  /** The text after a quote starts with a quote-free id and a quote exactly when the id comes first. */
  lemma AfterQuote(tokens: seq<seq<Byte>>, id: seq<Byte>)
    requires tokens != [] && Free(id, QUOTE)
    requires forall i :: 0 <= i < |tokens| ==> Free(tokens[i], QUOTE)
    ensures var s := Join(QUOTE, tokens);
            StartsQuoted(s, id) <==> |tokens| > 1 && tokens[0] == id
  {
    var s, t := Join(QUOTE, tokens), tokens[0];
    assert forall k :: 0 <= k < |t| ==> s[k] in t;
    if |id| < |s| && s[..|id|] == id {
      assert forall k :: 0 <= k < |id| ==> s[k] in id;
      assert |t| == |id| ==> s[..|id|] == t;
    }
    if |tokens| > 1 {
      assert s[|t|] == QUOTE;
      assert s[..|t|] == t;
    }
  }

  lemma InnerOfRest(tokens: seq<seq<Byte>>, id: seq<Byte>)
    requires |tokens| > 1
    ensures IsInner(tokens, id) <==> (|tokens| > 2 && tokens[1] == id) || IsInner(tokens[1..], id)
  {
    if IsInner(tokens[1..], id) {
      var i :| 0 < i < |tokens[1..]| - 1 && tokens[1..][i] == id;
      assert tokens[i + 1] == id;
    }
    if IsInner(tokens, id) {
      var i :| 0 < i < |tokens| - 1 && tokens[i] == id;
      assert i > 1 ==> tokens[1..][i - 1] == id;
    }
  }

  // ---- printed lists ----------------------------------------------------------------------------------

  /**
   The quote-separated texts of a printed list: a gap before each id and one after the last. The first gap
   runs from the key's closing quote, the last one up to the closing bracket.
   */
  function ListTokens(gaps: seq<seq<Byte>>, ids: seq<seq<Byte>>): (t: seq<seq<Byte>>)
    requires |gaps| == |ids| + 1
    ensures |t| == 2 * |ids| + 1
  {
    if ids == [] then gaps else [gaps[0], ids[0]] + ListTokens(gaps[1..], ids[1..])
  }

  /** The quote-separated texts of a printed section, from the key to before the closing bracket. */
  function SectionTokens(gaps: seq<seq<Byte>>, ids: seq<seq<Byte>>): (t: seq<seq<Byte>>)
    requires |gaps| == |ids| + 1
    ensures |t| == 2 * |ids| + 3
  {
    [[], KEY_NAME] + ListTokens(gaps, ids)
  }

  /** The key and the list of quoted ids, without its closing bracket. */
  function PrintedSection(gaps: seq<seq<Byte>>, ids: seq<seq<Byte>>): seq<Byte>
    requires |gaps| == |ids| + 1
  {
    Join(QUOTE, SectionTokens(gaps, ids))
  }

  lemma {:induction false} ListTokensHold(gaps: seq<seq<Byte>>, ids: seq<seq<Byte>>, i: nat)
    requires |gaps| == |ids| + 1 && i < |ListTokens(gaps, ids)|
    ensures ListTokens(gaps, ids)[i] == if i % 2 == 0 then gaps[i / 2] else ids[i / 2]
  {
    if ids != [] && i >= 2 {
      ListTokensHold(gaps[1..], ids[1..], i - 2);
    }
  }

  /**
   On a printed list the scan is list membership, for quote-free ids, with two exceptions that are found
   although they are not listed: the key's own name, and the text between two quotes that separates ids.
   */
  lemma PrintedListMembership(gaps: seq<seq<Byte>>, ids: seq<seq<Byte>>, id: seq<Byte>)
    requires |gaps| == |ids| + 1 && Free(id, QUOTE)
    requires forall i :: 0 <= i < |ids| ==> Free(ids[i], QUOTE)
    requires forall i :: 0 <= i < |gaps| ==> Free(gaps[i], QUOTE)
    ensures QuotedIn(PrintedSection(gaps, ids), id) <==> id in ids || id == KEY_NAME || id in gaps[..|ids|]
  {
    hide Join, QuotedIn, SectionTokens, ListTokens, IsInner;
    var tokens := SectionTokens(gaps, ids);
    SectionTokensHold(gaps, ids);
    forall i | 0 <= i < |tokens|
      ensures Free(tokens[i], QUOTE)
    {
      assert IsSectionToken(gaps, ids, tokens, i);
    }
    QuotedIffInner(tokens, id);
    InnerTokens(gaps, ids, id);
  }

  /** What the texts of a printed section are: gaps at even positions, ids at odd ones from the third on. */
  ghost predicate IsSectionToken(gaps: seq<seq<Byte>>, ids: seq<seq<Byte>>, tokens: seq<seq<Byte>>, i: int) {
    && |gaps| == |ids| + 1 && |tokens| == 3 + 2 * |ids| && 0 <= i < |tokens|
    && tokens[i] == if i == 0 then []
                    else if i == 1 then KEY_NAME
                    else if i % 2 == 0 then gaps[i / 2 - 1]
                    else ids[i / 2 - 1]
  }

  lemma SectionTokensHold(gaps: seq<seq<Byte>>, ids: seq<seq<Byte>>)
    requires |gaps| == |ids| + 1
    ensures var tokens := SectionTokens(gaps, ids);
            forall i :: 0 <= i < |tokens| ==> IsSectionToken(gaps, ids, tokens, i)
  {
    hide ListTokens;
    var items, tokens := ListTokens(gaps, ids), SectionTokens(gaps, ids);
    forall i | 0 <= i < |tokens|
      ensures IsSectionToken(gaps, ids, tokens, i)
    {
      if i >= 2 {
        ListTokensHold(gaps, ids, i - 2);
        assert tokens[i] == items[i - 2];
      }
    }
  }

  lemma InnerTokens(gaps: seq<seq<Byte>>, ids: seq<seq<Byte>>, id: seq<Byte>)
    requires |gaps| == |ids| + 1
    ensures IsInner(SectionTokens(gaps, ids), id) <==> id in ids || id == KEY_NAME || id in gaps[..|ids|]
  {
    hide SectionTokens;
    var tokens := SectionTokens(gaps, ids);
    SectionTokensHold(gaps, ids);
    if IsInner(tokens, id) {
      var i :| 0 < i < |tokens| - 1 && tokens[i] == id;
      assert IsSectionToken(gaps, ids, tokens, i);
    }
    assert IsSectionToken(gaps, ids, tokens, 1);
    if id in ids {
      var i :| 0 <= i < |ids| && ids[i] == id;
      assert IsSectionToken(gaps, ids, tokens, 3 + 2 * i);
      assert tokens[3 + 2 * i] == id;
    }
    if id in gaps[..|ids|] {
      var i :| 0 <= i < |ids| && gaps[i] == id;
      assert IsSectionToken(gaps, ids, tokens, 2 + 2 * i);
      assert tokens[2 + 2 * i] == id;
    }
    assert tokens[1] == KEY_NAME;
  }

  /** Space, tab, line feed, carriage return, colon, comma, opening bracket: what separates the ids of a list. */
  const SEPARATORS: set<Byte> := {32, 9, 10, 13, 58, 44, 91}

  /** The text consists of separators alone. */
  predicate OnlySeparates(text: seq<Byte>) {
    forall b :: b in text ==> b in SEPARATORS
  }

  lemma WindowIs(data: seq<Byte>, start: nat, end: int)
    requires start < |data|
    ensures Window(data, start, end) == if start < end <= |data| then data[start..end] else data[start..]
  {
  }

  /** Nothing is found in a text without the key, or without a closing bracket after its first occurrence. */
  lemma NothingKnown(data: seq<Byte>, id: seq<Byte>, start: nat, end: int, text: seq<Byte>)
    requires start < |data| && text == if start < end <= |data| then data[start..end] else data[start..]
    requires || (forall k :: !OccursAt(text, KEY, k))
             || exists k :: FirstAt(text, KEY, k) && Free(text[k..], CLOSE)
    ensures Known(data, id, start, end) == Some(false)
  {
    hide OccursAt;
    WindowIs(data, start, end);
    if k :| FirstAt(text, KEY, k) && Free(text[k..], CLOSE) {
      IndexIs(text, KEY, k);
      NoSuchByte(text[k..], CLOSE);
    }
  }

  /** The first occurrence. */
  ghost predicate FirstAt(s: seq<Byte>, sep: seq<Byte>, k: int) {
    0 <= k <= |s| && OccursAt(s, sep, k) && forall j :: 0 <= j < k ==> !OccursAt(s, sep, j)
  }

  /** The key is "known_merchants" between its quotes. */
  lemma KeyIs()
    ensures |KEY_NAME| == 15 && forall i :: 0 <= i < 15 ==> KEY_NAME[i] == "known_merchants"[i] as int
    ensures KEY == [34] + KEY_NAME + [34]
  {
  }

  /**
   On a window with a printed list, however it is spaced, the answer is membership, for every quote-free id
   other than the key's name that does not consist of separators. The window ends at the end of the data when the
   end given does not lie after the start or lies outside the data.
   */
  lemma KnownOnPrintedList(
      data: seq<Byte>, start: nat, end: int, before: seq<Byte>, gaps: seq<seq<Byte>>, ids: seq<seq<Byte>>,
      after: seq<Byte>, id: seq<Byte>, text: seq<Byte>)
    requires start < |data| && |gaps| == |ids| + 1
    requires text == if start < end <= |data| then data[start..end] else data[start..]
    requires text == before + PrintedSection(gaps, ids) + [CLOSE] + after
    requires Free(id, QUOTE) && id != KEY_NAME && !OnlySeparates(id)
    requires forall i :: 0 <= i < |ids| ==> Free(ids[i], QUOTE) && Free(ids[i], CLOSE)
    requires forall i :: 0 <= i < |gaps| ==> OnlySeparates(gaps[i])
    requires forall k :: 0 <= k < |before| ==> !OccursAt(text, KEY, k)
    ensures Known(data, id, start, end) == Some(id in ids)
  {
    hide PrintedSection, QuotedIn, ListTokens, OccursAt;
    WindowIs(data, start, end);
    GapsAreFree(gaps);
    PrintedStartsWithKey(gaps, ids);
    PrintedHasNoBracket(gaps, ids);
    SectionFound(data, start, end, before, PrintedSection(gaps, ids), after);
    PrintedListMembership(gaps, ids, id);
    assert id !in gaps[..|ids|];
  }

  lemma GapsAreFree(gaps: seq<seq<Byte>>)
    requires forall i :: 0 <= i < |gaps| ==> OnlySeparates(gaps[i])
    ensures forall i :: 0 <= i < |gaps| ==> Free(gaps[i], QUOTE) && Free(gaps[i], CLOSE)
  {
  }

  /** A section that starts with the key, and has no bracket inside, is the one the scanner cuts out. */
  lemma SectionFound(
      data: seq<Byte>, start: nat, end: int, before: seq<Byte>, section: seq<Byte>, after: seq<Byte>)
    requires start < |data| && Window(data, start, end) == before + section + [CLOSE] + after
    requires |KEY| <= |section| && section[..|KEY|] == KEY && Free(section, CLOSE)
    requires forall k :: 0 <= k < |before| ==> !OccursAt(Window(data, start, end), KEY, k)
    ensures SectionOf(data, start, end) == Some(section)
  {
    hide OccursAt;
    var window, n := before + section + [CLOSE] + after, |before|;
    KeyOccurs(window, section, n);
    IndexIs(window, KEY, n);
    assert window[n..] == section + [CLOSE] + after;
    FirstClose(section, after);
    assert window[n..n + |section|] == section;
  }

  lemma KeyOccurs(data: seq<Byte>, section: seq<Byte>, n: nat)
    requires |KEY| <= |section| && section[..|KEY|] == KEY
    requires n + |section| <= |data| && data[n..n + |section|] == section
    ensures OccursAt(data, KEY, n)
  {
    assert data[n..n + |KEY|] == section[..|KEY|];
  }

  lemma FirstClose(section: seq<Byte>, after: seq<Byte>)
    requires Free(section, CLOSE)
    ensures Index(section + [CLOSE] + after, [CLOSE]) == |section|
  {
    FirstByte(section + [CLOSE] + after, CLOSE, |section|);
  }

  lemma PrintedStartsWithKey(gaps: seq<seq<Byte>>, ids: seq<seq<Byte>>)
    requires |gaps| == |ids| + 1
    ensures |KEY| <= |PrintedSection(gaps, ids)| && PrintedSection(gaps, ids)[..|KEY|] == KEY
  {
    var tokens := SectionTokens(gaps, ids);
    var rest := tokens[1..];
    assert |rest| >= 2 && rest[0] == KEY_NAME;
    assert Join(QUOTE, rest) == KEY_NAME + [QUOTE] + Join(QUOTE, rest[1..]);
    assert Join(QUOTE, tokens) == [] + [QUOTE] + Join(QUOTE, rest);
  }

  lemma PrintedHasNoBracket(gaps: seq<seq<Byte>>, ids: seq<seq<Byte>>)
    requires |gaps| == |ids| + 1 && forall i :: 0 <= i < |ids| ==> Free(ids[i], CLOSE)
    requires forall i :: 0 <= i < |gaps| ==> Free(gaps[i], CLOSE)
    ensures Free(PrintedSection(gaps, ids), CLOSE)
  {
    hide SectionTokens;
    var tokens := SectionTokens(gaps, ids);
    SectionTokensHold(gaps, ids);
    forall i | 0 <= i < |tokens|
      ensures Free(tokens[i], CLOSE)
    {
      assert IsSectionToken(gaps, ids, tokens, i);
    }
    JoinStaysFree(tokens, CLOSE);
  }

  lemma {:induction false} JoinStaysFree(tokens: seq<seq<Byte>>, b: Byte)
    requires tokens != [] && b != QUOTE && forall i :: 0 <= i < |tokens| ==> Free(tokens[i], b)
    ensures Free(Join(QUOTE, tokens), b)
  {
    if |tokens| > 1 {
      JoinStaysFree(tokens[1..], b);
    }
  }
}
