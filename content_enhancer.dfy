/**
 * Enrichment of a generated article's HTML: the call-to-action block at the
 * end and the "read also" block of internal links placed before it.
 */
module ContentEnhancer {
  import opened Text
  import History

  /** The path of the listing form; the call to action is recognised by it. */
  const LISTING_PATH: string := "add-listing"

  const CTA_TEXT: string :=
    "Якщо вам потрібна допомога — звертайтеся в UkrFix. Знайдемо найкраще рішення \U{1F680}"

  const CTA_BUTTON: string :=
    "<a href=\"https://ukrfix.com/" + LISTING_PATH + "/\" class=\"btn-submit\">Подати оголошення на UkrFix безкоштовно</a>"

  /** The opening tag of the call-to-action block. */
  const CTA_MARKER: string := "<div class=\"cta-block\">"

  /** The stripped triple-quoted template: the block starts with `<` and ends with `>`. */
  const CTA_BLOCK: string := CTA_MARKER + "\n  <p>" + CTA_TEXT + "</p>\n  " + CTA_BUTTON + "\n</div>"

  /** The class name that marks an internal-links block. */
  const LINKS_MARKER: string := "internal-links"

  // ---------------------------------------------------------------------------
  // ensure_cta_block
  // ---------------------------------------------------------------------------

  /** The test of `ensure_cta_block`: the lower-cased content holds the lower-cased CTA text or the listing path. */
  predicate HasCta(content: string)
  {
    Contains(Lower(content), Lower(CTA_TEXT)) || Contains(Lower(content), LISTING_PATH)
  }

  lemma ListingPathIsLower()
    ensures Lower(LISTING_PATH) == LISTING_PATH
  {
    assert forall i :: 0 <= i < |LISTING_PATH| ==> 'a' <= LISTING_PATH[i] <= 'z' || LISTING_PATH[i] == '-';
  }

  /** Any text that embeds the call-to-action block passes the test. */
  lemma WithCtaBlockHasCta(before: string, after: string)
    ensures HasCta(before + CTA_BLOCK + after)
  {
    assert Occurs(LISTING_PATH, LISTING_PATH, 0);
    ContainsWithin("<a href=\"https://ukrfix.com/", LISTING_PATH, "/\" class=\"btn-submit\">Подати оголошення на UkrFix безкоштовно</a>", LISTING_PATH);
    ContainsWithin(CTA_MARKER + "\n  <p>" + CTA_TEXT + "</p>\n  ", CTA_BUTTON, "\n</div>", LISTING_PATH);
    ContainsWithin(before, CTA_BLOCK, after, LISTING_PATH);
    ContainsLower(before + CTA_BLOCK + after, LISTING_PATH);
    ListingPathIsLower();
  }

  /** The shape of `f"{kept}{sep}{block}{end}"`: each piece sits where it should. */
  lemma Pieces(kept: string, sep: string, block: string, end: string)
    ensures var r := kept + sep + block + end;
      |r| == |kept| + |sep| + |block| + |end|
      && r[..|kept|] == kept
      && r[|kept|..|kept| + |sep|] == sep
      && r[|kept| + |sep|..] == block + end
      && r[|kept| + |sep| + |block|..] == end
  {
    var r := kept + sep + block + end;
    assert r == kept + (sep + block + end);
    assert r == (kept + sep) + (block + end);
    assert r == (kept + sep + block) + end;
  }

  /**
   * `ensure_cta_block`: content that already carries the call to action is
   * returned as it is; otherwise the block follows the content, with its
   * trailing whitespace removed, after a blank line. Either way the result carries the
   * call to action, so the content changes exactly when it lacked one.
   */
  function EnsureCtaBlock(content: string): (r: string)
    ensures HasCta(r)
    ensures r == content <==> HasCta(content)
    ensures !HasCta(content) ==>
      |RStrip(content, IsSpace)| + |CTA_BLOCK| + 3 == |r|
      && r[..|RStrip(content, IsSpace)|] == RStrip(content, IsSpace)
      && r[|RStrip(content, IsSpace)|..|RStrip(content, IsSpace)| + 2] == "\n\n"
      && r[|r| - |CTA_BLOCK| - 1..] == CTA_BLOCK + "\n"
  {
    if HasCta(content) then content
    else
      var kept := RStrip(content, IsSpace);
      var r := kept + "\n\n" + CTA_BLOCK + "\n";
      WithCtaBlockHasCta(kept + "\n\n", "\n");
      Pieces(kept, "\n\n", CTA_BLOCK, "\n");
      r
  }

  /** Ensuring the call to action twice is the same as once. */
  lemma EnsureCtaBlockIdempotent(content: string)
    ensures EnsureCtaBlock(EnsureCtaBlock(content)) == EnsureCtaBlock(content)
  {
  }

  // ---------------------------------------------------------------------------
  // inject_internal_links
  // ---------------------------------------------------------------------------

  /** One list item of the block. */
  function ItemHtml(link: History.Link): string
  {
    "<li><a href=\"" + link.url + "\" target=\"_blank\" rel=\"noopener\">" + link.title + "</a></li>"
  }

  /** Some link has a non-empty address. */
  predicate AnyAddress(links: seq<History.Link>)
  {
    exists i :: 0 <= i < |links| && links[i].url != ""
  }

  /** The joined list items, one per link with a non-empty address, in order. */
  function ItemsHtml(links: seq<History.Link>): (r: string)
    decreases |links|
    ensures r == [] <==> !AnyAddress(links)
  {
    if links == [] then ""
    else
      var rest := ItemsHtml(links[1..]);
      assert AnyAddress(links) <==> links[0].url != "" || AnyAddress(links[1..]) by {
        assert forall i :: 0 < i < |links| ==> links[i] == links[1..][i - 1];
      }
      (if links[0].url != "" then ItemHtml(links[0]) else "") + rest
  }

  /** The items of two lists of links are the items of each, one after the other. */
  lemma {:induction false} ItemsHtmlConcat(a: seq<History.Link>, b: seq<History.Link>)
    decreases |a|
    ensures ItemsHtml(a + b) == ItemsHtml(a) + ItemsHtml(b)
  {
    if a == [] {
      assert a + b == b;
    } else {
      assert (a + b)[0] == a[0] && (a + b)[1..] == a[1..] + b;
      ItemsHtmlConcat(a[1..], b);
    }
  }

  /** Every link with an address gets its list item. */
  lemma {:induction false} ItemsHtmlListsEvery(links: seq<History.Link>, i: nat)
    requires i < |links| && links[i].url != ""
    decreases |links|
    ensures Contains(ItemsHtml(links), ItemHtml(links[i]))
  {
    assert Occurs(ItemHtml(links[i]), ItemHtml(links[i]), 0);
    var head := if links[0].url != "" then ItemHtml(links[0]) else "";
    if i == 0 {
      ContainsWithin("", ItemHtml(links[0]), ItemsHtml(links[1..]), ItemHtml(links[0]));
      assert "" + ItemHtml(links[0]) + ItemsHtml(links[1..]) == ItemsHtml(links);
    } else {
      assert links[1..][i - 1] == links[i];
      ItemsHtmlListsEvery(links[1..], i - 1);
      ContainsWithin(head, ItemsHtml(links[1..]), "", ItemHtml(links[i]));
      assert head + ItemsHtml(links[1..]) + "" == ItemsHtml(links);
    }
  }

  /** The "read also" block around the list items (the stripped template). */
  function LinksBlock(items: string): string
  {
    "<div class=\"" + LINKS_MARKER + "\">\n  <h3>Читайте також:</h3>\n  <ul>\n    " + items + "\n  </ul>\n</div>"
  }

  lemma LinksBlockMarked(items: string)
    ensures Contains(LinksBlock(items), LINKS_MARKER)
  {
    var rest := "\">\n  <h3>Читайте також:</h3>\n  <ul>\n    " + items + "\n  </ul>\n</div>";
    assert Occurs(LINKS_MARKER, LINKS_MARKER, 0);
    ContainsWithin("<div class=\"", LINKS_MARKER, rest, LINKS_MARKER);
    assert "<div class=\"" + LINKS_MARKER + rest == LinksBlock(items);
  }

  /** The block holds the list items it was built around. */
  lemma LinksBlockHoldsItems(items: string)
    ensures Contains(LinksBlock(items), items)
  {
    var head := "<div class=\"" + LINKS_MARKER + "\">\n  <h3>Читайте також:</h3>\n  <ul>\n    ";
    assert Occurs(items, items, 0);
    ContainsWithin(head, items, "\n  </ul>\n</div>", items);
    assert head + items + "\n  </ul>\n</div>" == LinksBlock(items);
  }

  /**
   * Where a block goes: before the first call-to-action marker, the text
   * ahead of it trimmed at its end (`content.split(marker, 1)`), or after
   * the trimmed content when there is no marker.
   */
  function PlaceBlock(content: string, block: string): string
  {
    match IndexOf(content, CTA_MARKER)
    case Some(idx) =>
      RStrip(content[..idx], IsSpace) + "\n\n" + block + "\n\n" + CTA_MARKER + content[idx + |CTA_MARKER|..]
    case None =>
      RStrip(content, IsSpace) + "\n\n" + block + "\n"
  }

  lemma PlaceBlockBeforeCta(content: string, block: string, idx: nat)
    requires IndexOf(content, CTA_MARKER) == Some(idx)
    ensures PlaceBlock(content, block) == RStrip(content[..idx], IsSpace) + "\n\n" + block + ("\n\n" + content[idx..])
  {
    SplitAtOccurrence(content, CTA_MARKER, idx);
    var kept, tail := RStrip(content[..idx], IsSpace), content[idx + |CTA_MARKER|..];
    assert kept + "\n\n" + block + "\n\n" + CTA_MARKER + tail == kept + "\n\n" + block + ("\n\n" + (CTA_MARKER + tail));
  }

  /** Whatever the block contains, the placed result contains. */
  lemma PlaceBlockContains(content: string, block: string, t: string)
    requires Contains(block, t)
    ensures Contains(PlaceBlock(content, block), t)
  {
    match IndexOf(content, CTA_MARKER)
    case Some(idx) =>
      PlaceBlockBeforeCta(content, block, idx);
      ContainsWithin(RStrip(content[..idx], IsSpace) + "\n\n", block, "\n\n" + content[idx..], t);
    case None =>
      ContainsWithin(RStrip(content, IsSpace) + "\n\n", block, "\n", t);
  }

  /**
   * `inject_internal_links`: nothing changes without links, when a links
   * block is already present, or when no link has an address. Otherwise the
   * block is placed before the first call-to-action block, or at the end
   * when there is none; the result then carries the links marker.
   */
  function InjectInternalLinks(content: string, links: seq<History.Link>): (r: string)
    ensures r == content <==> links == [] || Contains(content, LINKS_MARKER) || !AnyAddress(links)
    ensures AnyAddress(links) ==> Contains(r, LINKS_MARKER)
    ensures r != content ==> Contains(r, ItemsHtml(links))
  {
    if links == [] then content
    else if Contains(content, LINKS_MARKER) then content
    else
      var items := ItemsHtml(links);
      if items == [] then content
      else
        LinksBlockMarked(items);
        PlaceBlockContains(content, LinksBlock(items), LINKS_MARKER);
        LinksBlockHoldsItems(items);
        PlaceBlockContains(content, LinksBlock(items), items);
        PlaceBlock(content, LinksBlock(items))
  }

  /** Once the block is injected, every link with an address appears in it as its own list item. */
  lemma InjectListsEveryLink(content: string, links: seq<History.Link>, i: nat)
    requires i < |links| && links[i].url != ""
    requires InjectInternalLinks(content, links) != content
    ensures Contains(InjectInternalLinks(content, links), ItemHtml(links[i]))
  {
    var r := InjectInternalLinks(content, links);
    ItemsHtmlListsEvery(links, i);
    var j :| Occurs(r, ItemsHtml(links), j);
    var k :| Occurs(ItemsHtml(links), ItemHtml(links[i]), k);
    OccursTrans(r, ItemsHtml(links), ItemHtml(links[i]), j, k);
  }

  /** Injecting a second time changes nothing, whatever the links. */
  lemma InjectInternalLinksIdempotent(content: string, links: seq<History.Link>, more: seq<History.Link>)
    ensures InjectInternalLinks(InjectInternalLinks(content, links), links) == InjectInternalLinks(content, links)
    ensures AnyAddress(links) ==>
      InjectInternalLinks(InjectInternalLinks(content, links), more) == InjectInternalLinks(content, links)
  {
  }

  /**
   * When the block is placed before a call-to-action block, everything from
   * the first call-to-action marker on is kept as it was, at the end of the
   * result; what came before it is kept but for its trailing whitespace.
   */
  lemma InjectKeepsCtaTail(content: string, links: seq<History.Link>, idx: nat)
    requires IndexOf(content, CTA_MARKER) == Some(idx)
    requires InjectInternalLinks(content, links) != content
    ensures var r := InjectInternalLinks(content, links);
      |content| - idx <= |r|
      && r[|r| - (|content| - idx)..] == content[idx..]
      && r[..|RStrip(content[..idx], IsSpace)|] == RStrip(content[..idx], IsSpace)
  {
    var block := LinksBlock(ItemsHtml(links));
    assert InjectInternalLinks(content, links) == PlaceBlock(content, block);
    PlaceBlockKeepsTail(content, block, idx);
  }

  lemma PlaceBlockKeepsTail(content: string, block: string, idx: nat)
    requires IndexOf(content, CTA_MARKER) == Some(idx)
    ensures var r := PlaceBlock(content, block);
      |content| - idx <= |r|
      && r[|r| - (|content| - idx)..] == content[idx..]
      && r[..|RStrip(content[..idx], IsSpace)|] == RStrip(content[..idx], IsSpace)
  {
    var kept := RStrip(content[..idx], IsSpace);
    PlaceBlockBeforeCta(content, block, idx);
    Pieces(kept, "\n\n", block, "\n\n" + content[idx..]);
    assert ("\n\n" + content[idx..])[2..] == content[idx..];
  }

  /** Without a call-to-action block the links block goes at the end, after the trimmed content. */
  lemma InjectAppendsWithoutCta(content: string, links: seq<History.Link>)
    requires IndexOf(content, CTA_MARKER).None?
    requires InjectInternalLinks(content, links) != content
    ensures var r := InjectInternalLinks(content, links);
      var kept := RStrip(content, IsSpace);
      |kept| < |r| && r[..|kept|] == kept && r[|r| - 7..] == "</div>\n"
  {
    var block := LinksBlock(ItemsHtml(links));
    assert InjectInternalLinks(content, links) == PlaceBlock(content, block);
    LinksBlockEnds(ItemsHtml(links));
    PlaceBlockAtEnd(content, block);
  }

  lemma LinksBlockEnds(items: string)
    ensures var block := LinksBlock(items);
      6 <= |block| && block[|block| - 6..] == "</div>"
  {
  }

  /** Without a call-to-action block, `block` and a newline follow the trimmed content. */
  lemma PlaceBlockAtEnd(content: string, block: string)
    requires IndexOf(content, CTA_MARKER).None?
    requires 6 <= |block| && block[|block| - 6..] == "</div>"
    ensures var r := PlaceBlock(content, block);
      var kept := RStrip(content, IsSpace);
      |kept| < |r| && r[..|kept|] == kept && r[|r| - 7..] == "</div>\n"
  {
    var kept := RStrip(content, IsSpace);
    var r := PlaceBlock(content, block);
    assert r == kept + "\n\n" + block + "\n";
    Pieces(kept, "\n\n", block, "\n");
    var tail := block + "\n";
    assert r[|kept| + 2..] == tail;
    assert r[|r| - 7..] == tail[|tail| - 7..];
    assert tail[|tail| - 7..] == block[|block| - 6..] + "\n";
  }
}
