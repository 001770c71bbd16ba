/**
 * The Boise State scraper, helperFunctions/scrapeBSU.js: the rules that
 * turn the texts found on a calendar page into event records (the title,
 * the keep rule, the date fallback), followed by the shared
 * `eventsWithCoords` step. The page queries themselves are not modelled:
 * each card holds the text of every element its queries found, `None`
 * where the element is missing.
 */
module ScrapeBsu {
  import opened Wrappers
  import opened JsString
  import opened Scrape
  import CityCoords

  /** The texts one game card's queries find. */
  datatype GameCard = GameCard(sport: Option<string>, opponent: Option<string>, location: Option<string>,
                               date: Option<string>, time: Option<string>)

  /** One day of the calendar: its `h3` header text and its game cards. */
  datatype CalendarDay = CalendarDay(header: Option<string>, cards: seq<GameCard>)

  const TitlePrefix := "Boise State vs. "

  /**
   * The record for one card, or `None` when it is dropped. The title names
   * the opponent and is "" without one; a card with neither title nor
   * sport is dropped; a card without its own date takes the day's date.
   */
  function CardEvent(dateHeader: string, card: GameCard): (r: Option<RawEvent>)
    ensures var opponent := TextOr(card.opponent, "");
            var sport := TextOr(card.sport, "");
            && (r.Some? <==> opponent != "" || sport != "")
            && (r.Some? ==> r.value.title != "" || r.value.sport != "")
            && (r.Some? ==> (r.value.title == "" <==> opponent == ""))
            && (r.Some? && opponent != "" ==>
                  TitlePrefix <= r.value.title && r.value.title[|TitlePrefix|..] == opponent)
            && (r.Some? ==> r.value.sport == sport && r.value.location == TextOr(card.location, ""))
            && (r.Some? ==> r.value.time == TextOr(card.time, ""))
            && (r.Some? ==> r.value.date == if card.date.Some? && Trim(card.date.value) != ""
                                              then Trim(card.date.value) else dateHeader)
  {
    var sport := TextOr(card.sport, "");
    var opponent := TextOr(card.opponent, "");
    var title := if opponent != "" then TitlePrefix + opponent else "";
    var location := TextOr(card.location, "");
    var date := TextOr(card.date, dateHeader);
    var time := TextOr(card.time, "");
    if title != "" || sport != "" then Some(RawEvent(title, sport, date, time, location)) else None
  }

  /** The records of a day's cards, in card order. */
  function CardEvents(dateHeader: string, cards: seq<GameCard>): (r: seq<RawEvent>)
    ensures |r| <= |cards|
    ensures forall i :: 0 <= i < |r| ==> r[i].title != "" || r[i].sport != ""
  {
    if cards == [] then []
    else
      var rest := CardEvents(dateHeader, cards[1..]);
      match CardEvent(dateHeader, cards[0])
      case Some(e) => [e] + rest
      case None => rest
  }

  /** The records of every day, in page order (the `forEach` loops pushing into `allEvents`). */
  function CalendarEvents(days: seq<CalendarDay>): seq<RawEvent>
  {
    if days == [] then []
    else DayEvents(days[0]) + CalendarEvents(days[1..])
  }

  /** The records of one day's cards, each dated by the day's header when it has no date of its own. */
  function DayEvents(day: CalendarDay): seq<RawEvent>
  {
    CardEvents(TextOr(day.header, ""), day.cards)
  }

  /** Every extracted record has a title or a sport. */
  lemma {:induction false} CalendarEventsKept(days: seq<CalendarDay>)
    ensures forall i :: 0 <= i < |CalendarEvents(days)| ==>
              CalendarEvents(days)[i].title != "" || CalendarEvents(days)[i].sport != ""
  {
    if days != [] {
      CalendarEventsKept(days[1..]);
      var first := DayEvents(days[0]);
      var rest := CalendarEvents(days[1..]);
      var all: seq<RawEvent> := first + rest;
      forall i | 0 <= i < |all| ensures all[i].title != "" || all[i].sport != "" {
        if i >= |first| {
          assert all[i] == rest[i - |first|];
        }
      }
    }
  }

  /**
   * One record per card that has an opponent or a sport, in card order:
   * the `i`th record is the record of the `i`th such card.
   */
  lemma {:induction false} CardEventsOfKept(dateHeader: string, cards: seq<GameCard>)
    ensures |CardEvents(dateHeader, cards)| == |KeptCards(cards)|
    ensures forall i :: 0 <= i < |KeptCards(cards)| ==>
              Some(CardEvents(dateHeader, cards)[i]) == CardEvent(dateHeader, KeptCards(cards)[i])
  {
    if cards != [] {
      CardEventsOfKept(dateHeader, cards[1..]);
      var rest := CardEvents(dateHeader, cards[1..]);
      var e := CardEvent(dateHeader, cards[0]);
      if Kept(cards[0]) {
        var all, kept := CardEvents(dateHeader, cards), KeptCards(cards);
        assert e.Some? && all == [e.value] + rest;
        assert kept == [cards[0]] + KeptCards(cards[1..]);
        forall i | 0 <= i < |kept| ensures Some(all[i]) == CardEvent(dateHeader, kept[i]) {
          if i > 0 {
            assert all[i] == rest[i - 1] && kept[i] == KeptCards(cards[1..])[i - 1];
          }
        }
      } else {
        assert e.None? && CardEvents(dateHeader, cards) == rest;
      }
    }
  }

  /** A card the extraction keeps: it has an opponent or a sport. */
  predicate Kept(card: GameCard)
  {
    TextOr(card.opponent, "") != "" || TextOr(card.sport, "") != ""
  }

  /** The cards with an opponent or a sport, in card order. */
  function KeptCards(cards: seq<GameCard>): seq<GameCard>
  {
    if cards == [] then []
    else if Kept(cards[0]) then [cards[0]] + KeptCards(cards[1..])
    else KeptCards(cards[1..])
  }

  /** The file the scraper saves: the extracted records with their locations split and looked up. */
  function SavedEvents(days: seq<CalendarDay>, lookup: (string, string) -> Option<CityCoords.CityCoords>)
    : (r: seq<LocatedEvent>)
    ensures |r| == |CalendarEvents(days)|
    ensures forall i :: 0 <= i < |r| ==> r[i].title != "" || r[i].sport != ""
  {
    CalendarEventsKept(days);
    EventsWithCoords(CalendarEvents(days), lookup)
  }

  /** The kept cards are the cards with an opponent or a sport, and no others. */
  lemma {:induction false} KeptCardsExactly(cards: seq<GameCard>)
    ensures |KeptCards(cards)| <= |cards|
    ensures forall i :: 0 <= i < |KeptCards(cards)| ==> Kept(KeptCards(cards)[i]) && KeptCards(cards)[i] in cards
    ensures forall i :: 0 <= i < |cards| && Kept(cards[i]) ==> cards[i] in KeptCards(cards)
  {
    if cards != [] {
      KeptCardsExactly(cards[1..]);
      forall i | 0 <= i < |cards| && Kept(cards[i]) ensures cards[i] in KeptCards(cards) {
        if i > 0 {
          assert cards[i] == cards[1..][i - 1];
        }
      }
    }
  }
}
