/**
  Bracket expressions (section 9.3.5 of XBD in IEEE Std 1003.1) as trees: the text a tree stands
  for, the bytes it denotes, and the reader, which accepts exactly the texts of valid trees.
 */
module RegexBracket {
  import opened Basics
  import opened RegexLanguage
  import opened RegexScan

  /** One byte, or all bytes from one to another. */
  datatype Item = One(c: Byte) | Range(lo: Byte, hi: Byte)

  datatype Items = Ended | Next(item: Item, rest: Items)

  /** A right bracket or a dash stands for itself at the front of the list. */
  datatype Lead = NoLead | LeadBracket | LeadDash

  /** A dash also stands for itself at the end of the list. */
  datatype CharList = CharList(inverted: bool, lead: Lead, items: Items, dash: bool)

  // ----- The text -----

  function ItemText(t: Item): Word {
    match t
    case One(c) => [c]
    case Range(lo, hi) => [lo, Chr('-'), hi]
  }

  function ItemsText(ts: Items): Word {
    match ts
    case Ended => []
    case Next(t, rest) => ItemText(t) + ItemsText(rest)
  }

  function LeadText(l: Lead): Word {
    match l
    case NoLead => []
    case LeadBracket => [Chr(']')]
    case LeadDash => [Chr('-')]
  }

  function DashText(dash: bool): Word {
    if dash then [Chr('-')] else []
  }

  /** The list after the circumflex, up to and including the closing bracket. */
  function ListedText(b: CharList): Word {
    LeadText(b.lead) + (ItemsText(b.items) + (DashText(b.dash) + [Chr(']')]))
  }

  /** All that follows the opening bracket. */
  function ListText(b: CharList): Word {
    if b.inverted then [Chr('^')] + ListedText(b) else ListedText(b)
  }

  // ----- The bytes denoted -----

  const ALL: set<Byte> := set b: Byte | true

  /** The order in which a range runs: bytes are signed. */
  function Signed(b: Byte): int { if b < 128 then b else b - 256 }

  function Between(lo: Byte, hi: Byte): set<Byte> {
    set b: Byte | Signed(lo) <= Signed(b) <= Signed(hi)
  }

  function ItemSet(t: Item): set<Byte> {
    match t
    case One(c) => {c}
    case Range(lo, hi) => Between(lo, hi)
  }

  function ItemsSet(ts: Items): set<Byte> {
    match ts
    case Ended => {}
    case Next(t, rest) => ItemSet(t) + ItemsSet(rest)
  }

  function LeadSet(l: Lead): set<Byte> {
    match l
    case NoLead => {}
    case LeadBracket => {Chr(']')}
    case LeadDash => {Chr('-')}
  }

  function DashSet(dash: bool): set<Byte> {
    if dash then {Chr('-')} else {}
  }

  function ListedSet(b: CharList): set<Byte> {
    LeadSet(b.lead) + ItemsSet(b.items) + DashSet(b.dash)
  }

  function Inverted(cs: set<Byte>, newline: bool): set<Byte> {
    ALL - cs - (if newline then {Chr('\n')} else {})
  }

  /** What the whole expression matches; an inverted list never matches a newline that ends lines. */
  function ListSet(b: CharList, newline: bool): set<Byte> {
    if b.inverted then Inverted(ListedSet(b), newline) else ListedSet(b)
  }

  /** A range of bytes below 128, or of bytes from there on, runs as they are numbered; one that is mixed runs through 255. */
  lemma {:induction false} RangeBytes(lo: Byte, hi: Byte, b: Byte)
    ensures (lo < 128 <==> hi < 128) ==> (b in Between(lo, hi) <==> lo <= b <= hi)
    ensures hi < 128 <= lo ==> (b in Between(lo, hi) <==> b >= lo || b <= hi)
    ensures lo < 128 <= hi ==> b !in Between(lo, hi)
  {
  }

  // ----- Valid trees -----

  /** The byte that an item begins with. */
  function ItemFirst(t: Item): Byte {
    match t
    case One(c) => c
    case Range(lo, _) => lo
  }

  predicate Begins(ts: Items, c: char)
    requires c < 256 as char
  {
    ts.Next? && ItemFirst(ts.item) == Chr(c)
  }

  /** No class, equivalence class or collating element begins with the item and what follows. */
  predicate ValidItem(t: Item, rest: Items) {
    && ItemFirst(t) != Chr(']') && ItemFirst(t) != Chr('-')
    && match t
       case One(c) => c == Chr('[') ==> !Begins(rest, ':') && !Begins(rest, '=') && !Begins(rest, '.')
       case Range(lo, hi) => Signed(lo) <= Signed(hi) && hi != Chr(']') && (hi == Chr('[') ==> !Begins(rest, '.'))
  }

  predicate ValidItems(ts: Items) {
    ts.Next? ==> ValidItem(ts.item, ts.rest) && ValidItems(ts.rest)
  }

  /** A list without a leading byte has an item, and begins with a circumflex only if inverted. */
  predicate ValidList(b: CharList) {
    && ValidItems(b.items)
    && (b.lead.NoLead? ==> b.items.Next? && (b.inverted || !Begins(b.items, '^')))
  }

  // ----- The reader -----

  function ReadItem(s: Word, i: nat): (r: Parsed<Item>)
    requires i < |s|
    ensures r.Ok? ==> i < r.next <= |s|
  {
    if SeeTwo(s, i, '[', ':') || SeeTwo(s, i, '[', '=') || SeeTwo(s, i, '[', '.') then Err(OUTSIDE)
    else if See(s, i, '-') then Err(ERANGE)
    else if See(s, i + 1, '-') && i + 2 < |s| && s[i + 2] != Chr(']') then
      if SeeTwo(s, i + 2, '[', '.') then Err(OUTSIDE)
      else if Signed(s[i]) > Signed(s[i + 2]) then Err(ERANGE)
      else Ok(Range(s[i], s[i + 2]), i + 3)
    else Ok(One(s[i]), i + 1)
  }

  predicate MoreItems(s: Word, i: nat) {
    i < |s| && s[i] != Chr(']') && !SeeTwo(s, i, '-', ']')
  }

  function ReadItems(s: Word, i: nat): (r: Parsed<Items>)
    requires i <= |s|
    ensures r.Ok? ==> i <= r.next <= |s| && !MoreItems(s, r.next)
    decreases |s| - i
  {
    if !MoreItems(s, i) then Ok(Ended, i)
    else
      var t := ReadItem(s, i);
      if t.Err? then Err(t.e)
      else
        var rest := ReadItems(s, t.next);
        if rest.Err? then rest else Ok(Next(t.value, rest.value), rest.next)
  }

  function LeadAt(s: Word, i: nat): Lead {
    if See(s, i, ']') then LeadBracket else if See(s, i, '-') then LeadDash else NoLead
  }

  function ReadList(s: Word, i: nat, inverted: bool): (r: Parsed<CharList>)
    requires i <= |s|
    ensures r.Ok? ==> i < r.next <= |s|
  {
    var lead := LeadAt(s, i);
    var r := ReadItems(s, i + |LeadText(lead)|);
    if r.Err? then Err(r.e)
    else
      var dash := See(s, r.next, '-');
      var end := r.next + |DashText(dash)|;
      if See(s, end, ']') then Ok(CharList(inverted, lead, r.value, dash), end + 1) else Err(EBRACK)
  }

  /** A bracket expression from after its opening bracket. */
  function ReadBracket(s: Word, i: nat): (r: Parsed<CharList>)
    requires i <= |s|
    ensures r.Ok? ==> i < r.next <= |s|
  {
    if See(s, i, '^') then ReadList(s, i + 1, true) else ReadList(s, i, false)
  }

  // ----- What is read is a valid tree, and its text was there -----

  lemma {:induction false} ItemSound(s: Word, i: nat)
    requires i < |s| && ReadItem(s, i).Ok?
    ensures ItemText(ReadItem(s, i).value) == s[i..ReadItem(s, i).next]
    ensures ItemFirst(ReadItem(s, i).value) == s[i]
  {
  }

  lemma {:induction false} ItemsSound(s: Word, i: nat)
    requires i <= |s| && ReadItems(s, i).Ok?
    ensures ItemsText(ReadItems(s, i).value) == s[i..ReadItems(s, i).next]
    ensures ValidItems(ReadItems(s, i).value)
    ensures ReadItems(s, i).value.Next? ==> i < |s| && ItemFirst(ReadItems(s, i).value.item) == s[i] && MoreItems(s, i)
    decreases |s| - i
  {
    hide ItemText;
    if MoreItems(s, i) {
      var t := ReadItem(s, i);
      ItemSound(s, i);
      ItemsSound(s, t.next);
      var n := ReadItems(s, i).next;
      assert s[i..n] == s[i..t.next] + s[t.next..n];
    }
  }

  lemma {:induction false} Joined(s: Word, a: nat, b: nat, c: nat, d: nat)
    requires a <= b <= c <= d < |s|
    ensures s[a..d + 1] == s[a..b] + (s[b..c] + (s[c..d] + [s[d]]))
  {
  }

  lemma {:induction false} ListSound(s: Word, i: nat, inverted: bool)
    requires i <= |s| && ReadList(s, i, inverted).Ok? && (inverted || !See(s, i, '^'))
    ensures var r := ReadList(s, i, inverted);
            ValidList(r.value) && r.value.inverted == inverted && ListedText(r.value) == s[i..r.next]
  {
    hide ReadItems, ItemsText, ValidItems, ItemFirst, LeadText, LeadAt, DashText, MoreItems;
    var lead := LeadAt(s, i);
    LeadSound(s, i);
    var k := i + |LeadText(lead)|;
    var r := ReadItems(s, k);
    ItemsSound(s, k);
    var dash := See(s, r.next, '-');
    DashSound(s, r.next);
    Joined(s, i, k, r.next, r.next + |DashText(dash)|);
    NothingListed(s, k);
  }

  lemma {:induction false} LeadSound(s: Word, i: nat)
    requires i <= |s|
    ensures var l := LeadAt(s, i);
            && i + |LeadText(l)| <= |s| && s[i..i + |LeadText(l)|] == LeadText(l)
            && (l.NoLead? ==> |LeadText(l)| == 0 && (i < |s| ==> MoreItems(s, i)))
  {
  }

  lemma {:induction false} DashSound(s: Word, i: nat)
    requires i <= |s|
    ensures var t := DashText(See(s, i, '-')); i + |t| <= |s| && s[i..i + |t|] == t && (t == [] <==> !See(s, i, '-'))
  {
  }

  lemma {:induction false} NothingListed(s: Word, i: nat)
    requires i <= |s| && ReadItems(s, i).Ok?
    ensures ReadItems(s, i).value.Ended? ==> !MoreItems(s, i)
  {
  }

  lemma {:induction false} BracketSound(s: Word, i: nat)
    requires i <= |s| && ReadBracket(s, i).Ok?
    ensures var r := ReadBracket(s, i); ValidList(r.value) && ListText(r.value) == s[i..r.next]
  {
    hide ReadList, ValidList, ListedText;
    if See(s, i, '^') {
      ListSound(s, i + 1, true);
      var n := ReadBracket(s, i).next;
      assert s[i..n] == [s[i]] + s[i + 1..n];
    } else {
      ListSound(s, i, false);
    }
  }

  // ----- The text of every valid tree is read as that tree -----

  /** The list of items ends here: a right bracket comes next, or one after a dash. */
  ghost predicate ItemsEnd(s: Word, n: nat) {
    See(s, n, ']') || SeeTwo(s, n, '-', ']')
  }

  lemma {:induction false} Follows(s: Word, i: nat, n: nat, ts: Items)
    requires i <= n <= |s| && s[i..n] == ItemsText(ts) && ItemsEnd(s, n)
    ensures i < |s| && (if ts.Next? then i < n && s[i] == ItemFirst(ts.item) else i == n)
  {
    if ts.Next? {
      assert s[i] == s[i..n][0];
    }
  }

  lemma {:induction false} OneComplete(s: Word, i: nat, n: nat, c: Byte, rest: Items)
    requires i < n <= |s| && s[i] == c && s[i + 1..n] == ItemsText(rest) && ItemsEnd(s, n)
    requires ValidItem(One(c), rest) && ValidItems(rest)
    ensures ReadItem(s, i) == Ok(One(c), i + 1)
  {
    hide ItemsText;
    Follows(s, i + 1, n, rest);
  }

  lemma {:induction false} RangeComplete(s: Word, i: nat, n: nat, lo: Byte, hi: Byte, rest: Items)
    requires i + 3 <= n <= |s| && s[i] == lo && s[i + 1] == Chr('-') && s[i + 2] == hi
    requires s[i + 3..n] == ItemsText(rest) && ItemsEnd(s, n) && ValidItem(Range(lo, hi), rest)
    ensures ReadItem(s, i) == Ok(Range(lo, hi), i + 3)
  {
    hide ItemsText;
    Follows(s, i + 3, n, rest);
  }

  lemma {:induction false} ItemsComplete(s: Word, i: nat, n: nat, ts: Items)
    requires i <= n <= |s| && s[i..n] == ItemsText(ts) && ValidItems(ts) && ItemsEnd(s, n)
    ensures ReadItems(s, i) == Ok(ts, n)
    decreases ts
  {
    hide ReadItem, ValidItem;
    match ts
    case Ended =>
    case Next(t, rest) =>
      Cut(s, i, n, ItemText(t), ItemsText(rest));
      ItemComplete(s, i, n, t, rest);
      ItemsComplete(s, i + |ItemText(t)|, n, rest);
  }

  lemma {:induction false} ItemComplete(s: Word, i: nat, n: nat, t: Item, rest: Items)
    requires i + |ItemText(t)| <= n <= |s| && s[i..i + |ItemText(t)|] == ItemText(t)
    requires s[i + |ItemText(t)|..n] == ItemsText(rest) && ItemsEnd(s, n) && ValidItem(t, rest) && ValidItems(rest)
    ensures MoreItems(s, i) && ReadItem(s, i) == Ok(t, i + |ItemText(t)|)
  {
    hide ReadItem, ItemsText;
    assert s[i] == s[i..i + |ItemText(t)|][0];
    match t
    case One(c) => OneComplete(s, i, n, c, rest);
    case Range(lo, hi) =>
      assert s[i + 1] == s[i..i + 3][1] && s[i + 2] == s[i..i + 3][2];
      RangeComplete(s, i, n, lo, hi, rest);
  }

  lemma {:induction false} ListComplete(s: Word, i: nat, n: nat, b: CharList)
    requires i <= n <= |s| && s[i..n] == ListedText(b) && ValidList(b)
    ensures ReadList(s, i, b.inverted) == Ok(b, n)
    ensures b.lead.NoLead? ==> i < n && b.items.Next? && s[i] == ItemFirst(b.items.item)
    ensures !b.lead.NoLead? ==> i < n && s[i] == LeadText(b.lead)[0]
  {
    hide ReadItems, ItemsText, ValidItems, ItemFirst;
    var k := i + |LeadText(b.lead)|;
    var m := k + |ItemsText(b.items)|;
    ListParts(s, i, n, b);
    TailEnds(s, m, n, b.dash);
    ItemsComplete(s, k, m, b.items);
    Follows(s, k, m, b.items);
    FirstValid(b.items);
    LeadFound(s, i, b.lead);
  }

  /** Where the parts of a list lie. */
  lemma {:induction false} ListParts(s: Word, i: nat, n: nat, b: CharList)
    requires i <= n <= |s| && s[i..n] == ListedText(b)
    ensures var k := i + |LeadText(b.lead)|;
            var m := k + |ItemsText(b.items)|;
            && k <= m <= n && s[i..k] == LeadText(b.lead) && s[k..m] == ItemsText(b.items)
            && s[m..n] == DashText(b.dash) + [Chr(']')]
  {
    hide ItemsText, LeadText;
    var tail := DashText(b.dash) + [Chr(']')];
    Cut(s, i, n, LeadText(b.lead), ItemsText(b.items) + tail);
    Cut(s, i + |LeadText(b.lead)|, n, ItemsText(b.items), tail);
  }

  lemma {:induction false} LeadFound(s: Word, i: nat, l: Lead)
    requires i + |LeadText(l)| <= |s| && s[i..i + |LeadText(l)|] == LeadText(l)
    requires l.NoLead? ==> i < |s| && s[i] != Chr(']') && s[i] != Chr('-')
    ensures LeadAt(s, i) == l && (!l.NoLead? ==> s[i] == LeadText(l)[0])
  {
    if !l.NoLead? {
      assert s[i] == s[i..i + 1][0];
    }
  }

  lemma {:induction false} TailEnds(s: Word, m: nat, n: nat, dash: bool)
    requires m <= n <= |s| && s[m..n] == DashText(dash) + [Chr(']')]
    ensures ItemsEnd(s, m) && n == m + |DashText(dash)| + 1 && s[n - 1] == Chr(']') && (dash <==> See(s, m, '-'))
  {
    assert s[m] == s[m..n][0] && s[n - 1] == s[m..n][|DashText(dash)|];
  }

  lemma {:induction false} FirstValid(ts: Items)
    requires ValidItems(ts)
    ensures ts.Next? ==> ItemFirst(ts.item) != Chr(']') && ItemFirst(ts.item) != Chr('-')
  {
  }

  lemma {:induction false} BracketComplete(s: Word, i: nat, n: nat, b: CharList)
    requires i <= n <= |s| && s[i..n] == ListText(b) && ValidList(b)
    ensures ReadBracket(s, i) == Ok(b, n)
  {
    hide ReadList, ListedText;
    if b.inverted {
      FirstOf(s, i, n, Chr('^'), ListedText(b));
      ListComplete(s, i + 1, n, b);
    } else {
      ListComplete(s, i, n, b);
    }
  }

  /** A text is accepted exactly if it is that of a valid tree, which is the one read. */
  lemma {:induction false} BracketExactly(s: Word, b: CharList)
    ensures ReadBracket(s, 0) == Ok(b, |s|) <==> ValidList(b) && ListText(b) == s
  {
    hide ReadBracket, ValidList, ListText;
    assert s[0..|s|] == s;
    if ReadBracket(s, 0) == Ok(b, |s|) {
      BracketSound(s, 0);
    }
    if ValidList(b) && ListText(b) == s {
      BracketComplete(s, 0, |s|, b);
    }
  }
}
