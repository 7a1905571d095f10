/**
  The activity board: what `fetchActivities` builds from the activities it
  receives, as abstract records instead of HTML.

  Each activity becomes a card (escaped name, description and schedule;
  spots left and the "full" flag; the participant count; the sorted roster
  with avatar badges, or the "No participants yet" placeholder) and an
  option of the activity drop-down, which always starts with a placeholder
  whose value is empty. A failed load replaces the list by a fixed message
  and leaves the drop-down as it was.
 */
module Board {
  import opened HtmlEscape
  import opened Initials
  import opened Collation

  /** One activity as the server describes it. */
  datatype Activity = Activity(
    description: string,
    schedule: string,
    maxParticipants: int,
    participants: seq<string>)

  /** The activities in the order the response object lists them. */
  type Activities = seq<(string, Activity)>

  /**
    One roster line: the avatar badge, interpolated as it is (not escaped),
    and the escaped address.
   */
  datatype Entry = Entry(avatar: string, email: string)

  datatype Roster = NoParticipants | Listed(entries: seq<Entry>)

  /** Everything a card shows; text fields hold the escaped text. */
  datatype Card = Card(
    title: string,
    description: string,
    schedule: string,
    spotsLeft: int,
    full: bool,
    count: nat,
    roster: Roster)

  datatype SelectOption = SelectOption(value: string, text: string)

  datatype Listing = LoadError(message: string) | Cards(cards: seq<Card>)

  datatype View = View(listing: Listing, options: seq<SelectOption>)

  /** What the list request produced: a parsed activities object, or a failure. */
  datatype Fetch = FetchFailed | Fetched(activities: Activities)

  const Placeholder: SelectOption := SelectOption("", "-- Select an activity --")

  const LoadFailure: string := "Failed to load activities. Please try again later."

  /**
    The roster line for one address: its badge, and the address escaped so
    that it holds no markup character and decodes back to the address.
   */
  function EntryOf(p: string): (e: Entry)
    ensures e.avatar == GetInitials(p) && |e.avatar| <= 2
    ensures Safe(e.email) && Unescape(e.email) == p
  {
    EscapeSafe(p);
    UnescapeEscape(p);
    Entry(GetInitials(p), Escape(p))
  }

  function EntriesOf(ps: seq<string>): (es: seq<Entry>)
    ensures |es| == |ps|
    ensures forall k :: 0 <= k < |ps| ==> es[k] == EntryOf(ps[k])
  {
    if ps == [] then [] else [EntryOf(ps[0])] + EntriesOf(ps[1..])
  }

  /** The addresses a reader of the roster sees, once the entities are decoded. */
  function ShownEmails(es: seq<Entry>): (ps: seq<string>)
    ensures |ps| == |es|
    ensures forall k :: 0 <= k < |es| ==> ps[k] == Unescape(es[k].email)
  {
    if es == [] then [] else [Unescape(es[0].email)] + ShownEmails(es[1..])
  }

  /**
    The roster part of a card: the placeholder exactly when nobody has
    signed up, otherwise one line per participant whose decoded addresses
    are the roster rearranged in case-insensitive order.
   */
  function RosterOf(ps: seq<string>): (r: Roster)
    ensures r.NoParticipants? <==> ps == []
    ensures r.Listed? ==> |r.entries| == |ps|
    ensures r.Listed? ==> ShownEmails(r.entries) == SortParticipants(ps)
    ensures r.Listed? ==> multiset(ShownEmails(r.entries)) == multiset(ps) && Sorted(ShownEmails(r.entries))
  {
    if |ps| > 0 then
      ShownEntries(SortParticipants(ps));
      Listed(EntriesOf(SortParticipants(ps)))
    else NoParticipants
  }

  /**
    The card for one activity. Spots left is capacity minus roster size,
    unclamped, and the card is marked full exactly when that difference is
    zero, so an over-full activity shows a negative count and is not marked
    full. The count label is the roster size, and the placeholder replaces
    the list exactly when the roster is empty.
   */
  function CardOf(name: string, a: Activity): (c: Card)
    ensures c.spotsLeft + |a.participants| == a.maxParticipants
    ensures c.full <==> |a.participants| == a.maxParticipants
    ensures |a.participants| > a.maxParticipants ==> c.spotsLeft < 0 && !c.full
    ensures c.count == |a.participants|
    ensures c.roster.NoParticipants? <==> a.participants == []
  {
    var spots := a.maxParticipants - |a.participants|;
    Card(Escape(name), Escape(a.description), Escape(a.schedule),
         spots, spots == 0, |a.participants|, RosterOf(a.participants))
  }

  /** One card per activity, in order. */
  function CardsOf(acts: Activities): (cs: seq<Card>)
    ensures |cs| == |acts|
    ensures forall k :: 0 <= k < |acts| ==> cs[k] == CardOf(acts[k].0, acts[k].1)
  {
    if acts == [] then [] else [CardOf(acts[0].0, acts[0].1)] + CardsOf(acts[1..])
  }

  function NameOptions(acts: Activities): (os: seq<SelectOption>)
    ensures |os| == |acts|
    ensures forall k :: 0 <= k < |acts| ==> os[k] == SelectOption(acts[k].0, acts[k].0)
  {
    if acts == [] then [] else [SelectOption(acts[0].0, acts[0].0)] + NameOptions(acts[1..])
  }

  /**
    The drop-down after a successful load: the placeholder, whose value is
    empty, then one option per activity in order, value and text both the
    activity's name.
   */
  function OptionsOf(acts: Activities): (os: seq<SelectOption>)
    ensures |os| == |acts| + 1
    ensures os[0].value == "" && os[0] == Placeholder
    ensures forall k :: 0 <= k < |acts| ==> os[k + 1].value == acts[k].0 && os[k + 1].text == acts[k].0
  {
    [Placeholder] + NameOptions(acts)
  }

  /**
    `fetchActivities`: on success the list and the drop-down are rebuilt from
    scratch; on failure the list shows the fixed message and the drop-down
    keeps whatever it held before.
   */
  function Load(previous: seq<SelectOption>, f: Fetch): (v: View)
    ensures f.FetchFailed? ==> v.listing == LoadError(LoadFailure) && v.options == previous
    ensures f.Fetched? ==> v.listing == Cards(CardsOf(f.activities)) && v.options == OptionsOf(f.activities)
  {
    match f
    case FetchFailed => View(LoadError(LoadFailure), previous)
    case Fetched(acts) => View(Cards(CardsOf(acts)), OptionsOf(acts))
  }

  lemma {:induction false} ShownEntries(ps: seq<string>)
    ensures ShownEmails(EntriesOf(ps)) == ps
  {
    forall k | 0 <= k < |ps|
      ensures ShownEmails(EntriesOf(ps))[k] == ps[k]
    {
      UnescapeEscape(ps[k]);
    }
  }

  /**
    A listed roster has one line per participant; the decoded addresses
    are a permutation of the roster in case-insensitive order, each line
    carrying the badge of its own address.
   */
  lemma RosterShown(name: string, a: Activity)
    ensures var c := CardOf(name, a);
      c.roster.Listed? ==>
        var shown := ShownEmails(c.roster.entries);
        && |c.roster.entries| == c.count
        && multiset(shown) == multiset(a.participants)
        && Sorted(shown)
        && forall k :: 0 <= k < |shown| ==> c.roster.entries[k].avatar == GetInitials(shown[k])
  {
    var c := CardOf(name, a);
    if c.roster.Listed? {
      var sorted := SortParticipants(a.participants);
      ShownEntries(sorted);
      assert ShownEmails(c.roster.entries) == sorted;
    }
  }

  /**
    The name, description, schedule and every listed address reach the
    page escaped: none holds a markup character, and each decodes back to
    the server's text.
   */
  lemma CardTextEscaped(name: string, a: Activity)
    ensures var c := CardOf(name, a);
      && Safe(c.title) && Unescape(c.title) == name
      && Safe(c.description) && Unescape(c.description) == a.description
      && Safe(c.schedule) && Unescape(c.schedule) == a.schedule
      && (c.roster.Listed? ==> forall k :: 0 <= k < |c.roster.entries| ==>
            Safe(c.roster.entries[k].email)
            && Unescape(c.roster.entries[k].email) == SortParticipants(a.participants)[k])
  {
    EscapeSafe(name);
    EscapeSafe(a.description);
    EscapeSafe(a.schedule);
    UnescapeEscape(name);
    UnescapeEscape(a.description);
    UnescapeEscape(a.schedule);
    var c := CardOf(name, a);
    if c.roster.Listed? {
      var sorted := SortParticipants(a.participants);
      forall k | 0 <= k < |c.roster.entries|
        ensures Safe(c.roster.entries[k].email) && Unescape(c.roster.entries[k].email) == sorted[k]
      {
        EscapeSafe(sorted[k]);
        UnescapeEscape(sorted[k]);
      }
    }
  }

  /**
    The avatar badge is not escaped: an address whose local part is `<`
    puts a raw `<` into the roster line.
   */
  lemma AvatarNotEscaped(p: string)
    requires LocalPart(p) == "<"
    ensures EntryOf(p).avatar == "<"
    ensures !Safe(EntryOf(p).avatar)
  {
  }

  /**
    The k-th card and the (k+1)-th option describe the same activity: the
    card's decoded title is the option's value and text.
   */
  lemma CardsMatchOptions(acts: Activities)
    ensures var v := Load([], Fetched(acts));
      forall k :: 0 <= k < |acts| ==>
        && Unescape(v.listing.cards[k].title) == v.options[k + 1].value
        && v.options[k + 1].value == v.options[k + 1].text
  {
    forall k | 0 <= k < |acts| {
      UnescapeEscape(acts[k].0);
    }
  }
}
