/**
 * The BYU scraper, helperFunctions/scrapeBYU.js: the rules that turn the
 * texts found in one schedule item into an event record (the title, the
 * date and time from the item's `<time>` elements), followed by the shared
 * `eventsWithCoords` step. Each item holds the text of every element its
 * queries found, `None` where the element is missing.
 */
module ScrapeByu {
  import opened Wrappers
  import opened JsString
  import opened Scrape
  import CityCoords

  /**
   * The texts one schedule item's queries find; `times` holds the texts of
   * the `<time>` elements in the date container, `None` without a container.
   */
  datatype ScheduleItem = ScheduleItem(divider: Option<string>, neutralDivider: Option<string>,
                                       opponent: Option<string>, sport: Option<string>,
                                       times: Option<seq<string>>, location: Option<string>)

  /** The opponent's trimmed text, or `undefined` as text when the element is missing. */
  function OpponentText(item: ScheduleItem): (r: string)
    ensures item.opponent.Some? ==> r == Trim(item.opponent.value)
    ensures item.opponent.None? ==> r == "undefined"
    ensures IsTrimmed(r)
  {
    if item.opponent.Some? then Trim(item.opponent.value) else "undefined"
  }

  /**
   * The text between "BYU " and the opponent: the divider's trimmed text
   * when it has any, else the neutral divider's, else "".
   */
  function Divider(item: ScheduleItem): (d: string)
    ensures item.divider.Some? && Trim(item.divider.value) != "" ==> d == Trim(item.divider.value)
    ensures (item.divider.None? || Trim(item.divider.value) == "")
            && item.neutralDivider.Some? && Trim(item.neutralDivider.value) != ""
            ==> d == Trim(item.neutralDivider.value)
    ensures (item.divider.None? || Trim(item.divider.value) == "")
            && (item.neutralDivider.None? || Trim(item.neutralDivider.value) == "")
            ==> d == ""
    ensures IsTrimmed(d)
  {
    TextOr(item.divider, TextOr(item.neutralDivider, ""))
  }

  /**
   * The title: "BYU ", the divider ("at" or "vs."), a space, and the
   * opponent's trimmed text. A missing opponent element yields `undefined`,
   * which the concatenation spells out; the result is never empty, so the
   * `|| ''` fallback never applies.
   */
  function Title(item: ScheduleItem): (title: string)
    ensures title == "BYU " + Divider(item) + " " + OpponentText(item)
    ensures "BYU " <= title && title != ""
    ensures var opponent := OpponentText(item);
            && |"BYU  "| + |opponent| <= |title|
            && title[|title| - |opponent|..] == opponent
            && title[|title| - |opponent| - 1] == ' '
  {
    var joined := "BYU " + Divider(item) + " " + OpponentText(item);
    if joined != "" then joined else ""
  }

  /** The record for one item: every item gives one. */
  function ItemEvent(item: ScheduleItem): (r: RawEvent)
    ensures r.title == Title(item)
    ensures var times := if item.times.Some? then item.times.value else [];
            && (r.date == if |times| > 0 then Trim(times[0]) else "")
            && (r.time == if |times| > 1 then Trim(times[1]) else "")
    ensures r.sport == TextOr(item.sport, "") && r.location == TextOr(item.location, "")
  {
    var times := if item.times.Some? then item.times.value else [];
    RawEvent(Title(item), TextOr(item.sport, ""),
             if |times| > 0 then Trim(times[0]) else "",
             if |times| > 1 then Trim(times[1]) else "",
             TextOr(item.location, ""))
  }

  /** `items.map(...)`: one record per item, in page order. */
  function ItemEvents(items: seq<ScheduleItem>): (r: seq<RawEvent>)
    ensures |r| == |items|
    ensures forall i :: 0 <= i < |r| ==> r[i] == ItemEvent(items[i])
  {
    if items == [] then [] else [ItemEvent(items[0])] + ItemEvents(items[1..])
  }

  /** The file the scraper saves: one record per schedule item, every title starting with "BYU ". */
  function SavedEvents(items: seq<ScheduleItem>, lookup: (string, string) -> Option<CityCoords.CityCoords>)
    : (r: seq<LocatedEvent>)
    ensures |r| == |items|
    ensures forall i :: 0 <= i < |r| ==> "BYU " <= r[i].title
  {
    EventsWithCoords(ItemEvents(items), lookup)
  }
}
