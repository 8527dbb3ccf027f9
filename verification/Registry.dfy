// src/audit_pipeline/customers.py, the customer registry `customers.json` and
// the URL salts kept in it.
module Registry {
  import opened Bytes
  import opened Text
  import opened Sorting
  import Base64
  import U = UrlToken

  type Branding = map<string, string>

  /** One customer; `details` are the fields the registry only stores. */
  datatype Entry = Entry(id: string, urlSalt: Option<string>, branding: Option<Branding>, details: map<string, string>)

  /** An element of the JSON array. */
  datatype Item = Customer(entry: Entry) | NotACustomer

  datatype File = Missing | NotJson | NotAnArray | Array(items: seq<Item>)

  datatype RegistryError = CannotParse | MustBeAnArray | InvalidId | AlreadyRegistered | NotFound

  // ---- loading and saving --------------------------------------------------

  function Customers(items: seq<Item>): seq<Entry> {
    if items == [] then []
    else
      match items[0]
      case Customer(e) => (if e.id == "" then [] else [e]) + Customers(items[1..])
      case NotACustomer => Customers(items[1..])
  }

  function Load(f: File): Result<seq<Entry>, RegistryError> {
    match f
    case Missing => Ok([])
    case NotJson => Err(CannotParse)
    case NotAnArray => Err(MustBeAnArray)
    case Array(items) => Ok(Customers(items))
  }

  predicate ById(a: Entry, b: Entry) {
    StringLe(a.id, b.id)
  }

  function Items(es: seq<Entry>): seq<Item> {
    if es == [] then [] else [Customer(es[0])] + Items(es[1..])
  }

  function Saved(es: seq<Entry>): File {
    Array(Items(Sort(ById, es)))
  }

  /** The first entry with this id. */
  function Find(es: seq<Entry>, id: string): (r: Option<Entry>)
    ensures r.Some? ==> r.value.id == id
  {
    if es == [] then None else if es[0].id == id then Some(es[0]) else Find(es[1..], id)
  }

  /** `get_customer` on a file that loads. */
  function Lookup(f: File, id: string): Option<Entry> {
    match Load(f)
    case Err(_) => None
    case Ok(es) => Find(es, id)
  }

  // ---- the changes ---------------------------------------------------------

  predicate IsAlnum(c: char) {
    IsDigit(c) || 'a' <= c <= 'z' || 'A' <= c <= 'Z'
  }

  predicate IsIdText(s: string) {
    2 <= |s| <= 64 && IsAlnum(s[0]) && IsAlnum(s[|s| - 1]) &&
    forall i :: 0 <= i < |s| ==> IsAlnum(s[i]) || s[i] == '_' || s[i] == '-'
  }

  /** The `$` of the pattern also matches in front of a final newline. */
  predicate ValidId(id: string) {
    IsIdText(id) || (id != "" && id[|id| - 1] == '\n' && IsIdText(id[..|id| - 1]))
  }

  /** Two to 64 letters, digits, `_` and `-`, a letter or digit at both ends, and one newline may follow. */
  lemma IdSpelled(id: string)
    ensures ValidId(id) <==>
            var text := if id != "" && id[|id| - 1] == '\n' then id[..|id| - 1] else id;
            2 <= |text| <= 64 && text[0] !in "_-" && text[|text| - 1] !in "_-" &&
            forall i :: 0 <= i < |text| ==>
              '0' <= text[i] <= '9' || 'a' <= text[i] <= 'z' || 'A' <= text[i] <= 'Z' || text[i] in "_-"
  {
    var text := if id != "" && id[|id| - 1] == '\n' then id[..|id| - 1] else id;
    assert forall c: char :: c in "_-" <==> c == '_' || c == '-';
    if id != "" && id[|id| - 1] == '\n' {
      assert !IsIdText(id);
    }
  }

  predicate IsMessageChar(c: char) {
    IsDigit(c) || 'a' <= c <= 'z' || c == '-'
  }

  /** What the error message asks for. */
  predicate AsTheMessageSays(id: string) {
    2 <= |id| <= 32 && id[0] != '-' && id[|id| - 1] != '-' && forall i :: 0 <= i < |id| ==> IsMessageChar(id[i])
  }

  /** What the message asks for is accepted, and it is what is accepted among short ids of its characters alone. */
  lemma MessageIsNarrower(id: string)
    ensures AsTheMessageSays(id) <==> ValidId(id) && |id| <= 32 && forall i :: 0 <= i < |id| ==> IsMessageChar(id[i])
  {
    if |id| >= 1 && (forall i :: 0 <= i < |id| ==> IsMessageChar(id[i])) {
      assert id[|id| - 1] != '\n';
    }
  }

  const BRANDING_KEYS := ["logo_path", "hero_title", "footer_text", "pdf_watermark"]

  lemma InFour<T>(x: T, a: T, b: T, c: T, d: T)
    ensures x in [a, b, c, d] <==> x == a || x == b || x == c || x == d
  {
  }

  /** The four fields a branding may have. */
  lemma BrandingKey(key: string)
    ensures key in BRANDING_KEYS <==>
            key == "logo_path" || key == "hero_title" || key == "footer_text" || key == "pdf_watermark"
  {
    InFour(key, "logo_path", "hero_title", "footer_text", "pdf_watermark");
  }

  function ValidatedBranding(b: Branding): Branding {
    map key | key in b && key in BRANDING_KEYS && Strip(b[key]) != "" :: Strip(b[key])
  }

  datatype Change =
    | Add(id: string, salt: Octets, branding: Branding, details: map<string, string>)
    | UpdateBranding(id: string, branding: Branding)
    | Remove(id: string)
    | SetUrlSalt(id: string, salt: Octets)

  function NewEntry(c: Change): Entry
    requires c.Add?
  {
    Entry(c.id, Some(Base64.Unpadded(c.salt)),
          if c.branding == map[] then None else Some(ValidatedBranding(c.branding)), c.details)
  }

  /** What a change makes of the entry it names. */
  function Changed(e: Entry, c: Change): (r: Entry)
    ensures r.id == e.id
  {
    match c
    case UpdateBranding(_, b) =>
      e.(branding := Some((if e.branding.Some? then e.branding.value else map[]) + ValidatedBranding(b)))
    case SetUrlSalt(_, salt) => e.(urlSalt := Some(Base64.Unpadded(salt)))
    case _ => e
  }

  function Replaced(es: seq<Entry>, c: Change): seq<Entry> {
    if es == [] then []
    else if es[0].id == c.id then [Changed(es[0], c)] + es[1..]
    else [es[0]] + Replaced(es[1..], c)
  }

  function RemoveFirst(es: seq<Entry>, id: string): seq<Entry> {
    if es == [] then []
    else if es[0].id == id then es[1..]
    else [es[0]] + RemoveFirst(es[1..], id)
  }

  function ChangedList(es: seq<Entry>, c: Change): seq<Entry> {
    match c
    case Add(_, _, _, _) => es + [NewEntry(c)]
    case Remove(id) => RemoveFirst(es, id)
    case _ => Replaced(es, c)
  }

  function Apply(f: File, c: Change): Result<File, RegistryError> {
    if c.Add? && !ValidId(c.id) then Err(InvalidId)
    else
      match Load(f)
      case Err(e) => Err(e)
      case Ok(es) =>
        if c.Add? && Find(es, c.id).Some? then Err(AlreadyRegistered)
        else if !c.Add? && Find(es, c.id).None? then Err(NotFound)
        else Ok(Saved(ChangedList(es, c)))
  }

  /** A missing entry, a missing or empty field and text that does not decode all count as the empty salt. */
  function SaltOf(entry: Option<Entry>): Octets {
    match entry
    case None => []
    case Some(e) =>
      match e.urlSalt
      case None => []
      case Some(raw) =>
        match Base64.Decode(Base64.Repad(raw))
        case None => []
        case Some(salt) => if raw == "" then [] else salt
  }

  /** `get_customer_url_salt` */
  function UrlSalt(f: File, id: string): Result<Octets, RegistryError> {
    match Load(f)
    case Err(e) => Err(e)
    case Ok(es) => Ok(SaltOf(Find(es, id)))
  }

  lemma {:induction false} FindAt(es: seq<Entry>, i: nat, id: string)
    requires i <= |es| && forall j :: 0 <= j < i ==> es[j].id != id
    requires i < |es| ==> es[i].id == id
    ensures Find(es, id) == if i < |es| then Some(es[i]) else None
    ensures i < |es| ==> RemoveFirst(es, id) == es[..i] + es[i + 1..]
  {
    if i > 0 {
      FindAt(es[1..], i - 1, id);
      if i < |es| {
        assert es[..i] + es[i + 1..] == [es[0]] + (es[1..][..i - 1] + es[1..][i..]);
      }
    } else if es != [] {
      assert es[..0] + es[1..] == es[1..];
    }
  }

  lemma {:induction false} ReplacedAt(es: seq<Entry>, i: nat, c: Change)
    requires i < |es| && es[i].id == c.id && forall j :: 0 <= j < i ==> es[j].id != c.id
    ensures Replaced(es, c) == es[i := Changed(es[i], c)]
  {
    if i > 0 {
      ReplacedAt(es[1..], i - 1, c);
      assert es[i := Changed(es[i], c)] == [es[0]] + es[1..][i - 1 := Changed(es[i], c)];
    }
  }

  class CustomerRegistry {
    var file: File

    constructor ()
      ensures file == Missing
    {
      file := Missing;
    }

    method AddCustomer(id: string, salt: Octets, branding: Branding, details: map<string, string>)
      returns (r: Result<Entry, RegistryError>)
      modifies this
      ensures match Apply(old(file), Add(id, salt, branding, details))
              case Err(e) => r == Err(e) && file == old(file)
              case Ok(f) => r == Ok(NewEntry(Add(id, salt, branding, details))) && file == f
    {
      if !ValidId(id) {
        return Err(InvalidId);
      }
      match Load(file) {
        case Err(e) => r := Err(e);
        case Ok(customers) =>
          var i := IndexOf(customers, id);
          if i < |customers| {
            return Err(AlreadyRegistered);
          }
          var entry := NewEntry(Add(id, salt, branding, details));
          file := Saved(customers + [entry]);
          r := Ok(entry);
      }
    }

    method UpdateCustomerBranding(id: string, branding: Branding) returns (r: Result<Entry, RegistryError>)
      modifies this
      ensures match Apply(old(file), UpdateBranding(id, branding))
              case Err(e) => r == Err(e) && file == old(file)
              case Ok(f) => file == f && r.Ok? && Lookup(old(file), id).Some? &&
                            r.value == Changed(Lookup(old(file), id).value, UpdateBranding(id, branding))
    {
      r := ChangeCustomer(UpdateBranding(id, branding));
    }

    method SetCustomerUrlSalt(id: string, salt: Octets) returns (r: Result<Entry, RegistryError>)
      modifies this
      ensures match Apply(old(file), SetUrlSalt(id, salt))
              case Err(e) => r == Err(e) && file == old(file)
              case Ok(f) => file == f && r.Ok? && Lookup(old(file), id).Some? &&
                            r.value == Changed(Lookup(old(file), id).value, SetUrlSalt(id, salt))
    {
      r := ChangeCustomer(SetUrlSalt(id, salt));
    }

    /** Both walk the list to the first entry with the id, change it and save. */
    method ChangeCustomer(c: Change) returns (r: Result<Entry, RegistryError>)
      requires c.UpdateBranding? || c.SetUrlSalt?
      modifies this
      ensures match Apply(old(file), c)
              case Err(e) => r == Err(e) && file == old(file)
              case Ok(f) => file == f && r.Ok? && Lookup(old(file), c.id).Some? &&
                            r.value == Changed(Lookup(old(file), c.id).value, c)
    {
      match Load(file) {
        case Err(e) => r := Err(e);
        case Ok(customers) =>
          var i := IndexOf(customers, c.id);
          if i == |customers| {
            return Err(NotFound);
          }
          ReplacedAt(customers, i, c);
          file := Saved(customers[i := Changed(customers[i], c)]);
          r := Ok(Changed(customers[i], c));
      }
    }

    method RemoveCustomer(id: string) returns (r: Result<Entry, RegistryError>)
      modifies this
      ensures match Apply(old(file), Remove(id))
              case Err(e) => r == Err(e) && file == old(file)
              case Ok(f) => file == f && r.Ok? && Lookup(old(file), id) == Some(r.value)
    {
      match Load(file) {
        case Err(e) => r := Err(e);
        case Ok(customers) =>
          var i := IndexOf(customers, id);
          if i == |customers| {
            return Err(NotFound);
          }
          file := Saved(customers[..i] + customers[i + 1..]);
          r := Ok(customers[i]);
      }
    }
  }

  method IndexOf(es: seq<Entry>, id: string) returns (i: nat)
    ensures i <= |es| && (i < |es| ==> es[i].id == id) && forall j :: 0 <= j < i ==> es[j].id != id
    ensures Find(es, id) == if i < |es| then Some(es[i]) else None
    ensures i < |es| ==> RemoveFirst(es, id) == es[..i] + es[i + 1..]
  {
    i := 0;
    while i < |es| && es[i].id != id
      invariant i <= |es| && forall j :: 0 <= j < i ==> es[j].id != id
    {
      i := i + 1;
    }
    FindAt(es, i, id);
  }

  // ---- a change touches only the entry it names ----------------------------

  lemma {:induction false} FindInsert(x: Entry, es: seq<Entry>, k: string)
    ensures Find(Insert(ById, x, es), k) == if x.id == k then Some(x) else Find(es, k)
  {
    if es != [] && !ById(x, es[0]) {
      var rest := Insert(ById, x, es[1..]);
      FindInsert(x, es[1..], k);
      assert ([es[0]] + rest)[1..] == rest;
      SameIdIsInOrder(x, es[0]);
    } else {
      assert ([x] + es)[1..] == es;
    }
  }

  lemma SameIdIsInOrder(a: Entry, b: Entry)
    ensures a.id == b.id ==> ById(a, b)
  {
    StringOrder();
  }

  /** Sorting is stable, so the first entry with an id stays the first. */
  lemma {:induction false} FindSorted(es: seq<Entry>, k: string)
    ensures Find(Sort(ById, es), k) == Find(es, k)
  {
    if es != [] {
      FindSorted(es[1..], k);
      FindInsert(es[0], Sort(ById, es[1..]), k);
    }
  }

  predicate Named(es: seq<Entry>) {
    es == [] || (es[0].id != "" && Named(es[1..]))
  }

  lemma {:induction false} LoadedAreNamed(items: seq<Item>)
    ensures Named(Customers(items))
  {
    if items != [] {
      LoadedAreNamed(items[1..]);
      match items[0]
      case Customer(e) =>
        var rest := Customers(items[1..]);
        assert ([e] + rest)[1..] == rest && [] + rest == rest;
      case NotACustomer =>
    }
  }

  lemma {:induction false} InsertNamed(x: Entry, es: seq<Entry>)
    requires x.id != "" && Named(es)
    ensures Named(Insert(ById, x, es))
  {
    if es != [] && !ById(x, es[0]) {
      var rest := Insert(ById, x, es[1..]);
      InsertNamed(x, es[1..]);
      assert ([es[0]] + rest)[1..] == rest;
    } else {
      assert ([x] + es)[1..] == es;
    }
  }

  lemma {:induction false} SortNamed(es: seq<Entry>)
    requires Named(es)
    ensures Named(Sort(ById, es))
  {
    if es != [] {
      SortNamed(es[1..]);
      InsertNamed(es[0], Sort(ById, es[1..]));
    }
  }

  lemma {:induction false} ItemsLoad(es: seq<Entry>)
    requires Named(es)
    ensures Customers(Items(es)) == es
  {
    if es != [] {
      assert ([Customer(es[0])] + Items(es[1..]))[1..] == Items(es[1..]);
      ItemsLoad(es[1..]);
    }
  }

  /** What is saved is loaded again, sorted. */
  lemma SavedLoads(es: seq<Entry>)
    requires Named(es)
    ensures Load(Saved(es)) == Ok(Sort(ById, es))
  {
    SortNamed(es);
    ItemsLoad(Sort(ById, es));
  }

  lemma {:induction false} FindSnoc(es: seq<Entry>, x: Entry, k: string)
    ensures Find(es + [x], k) == if Find(es, k).None? && x.id == k then Some(x) else Find(es, k)
    ensures Named(es) && x.id != "" ==> Named(es + [x])
  {
    if es == [] {
      assert [] + [x] == [x] && [x][1..] == [];
    } else {
      assert (es + [x])[1..] == es[1..] + [x];
      FindSnoc(es[1..], x, k);
    }
  }

  lemma {:induction false} FindReplaced(es: seq<Entry>, c: Change, k: string)
    ensures Find(Replaced(es, c), k) ==
            if k == c.id && Find(es, k).Some? then Some(Changed(Find(es, k).value, c)) else Find(es, k)
    ensures Named(es) ==> Named(Replaced(es, c))
  {
    if es != [] {
      if es[0].id == c.id {
        assert ([Changed(es[0], c)] + es[1..])[1..] == es[1..];
      } else {
        var rest := Replaced(es[1..], c);
        assert ([es[0]] + rest)[1..] == rest;
        FindReplaced(es[1..], c, k);
      }
    }
  }

  lemma {:induction false} FindRemoved(es: seq<Entry>, id: string, k: string)
    ensures k != id ==> Find(RemoveFirst(es, id), k) == Find(es, k)
    ensures Named(es) ==> Named(RemoveFirst(es, id))
  {
    if es != [] && es[0].id != id {
      var rest := RemoveFirst(es[1..], id);
      assert ([es[0]] + rest)[1..] == rest;
      FindRemoved(es[1..], id, k);
    }
  }

  lemma ChangedListFinds(es: seq<Entry>, c: Change, k: string)
    requires Named(es) && c.id != ""
    ensures Named(ChangedList(es, c))
    ensures k != c.id ==> Find(ChangedList(es, c), k) == Find(es, k)
  {
    match c
    case Add(_, _, _, _) => FindSnoc(es, NewEntry(c), k);
    case Remove(id) => FindRemoved(es, id, k);
    case _ => FindReplaced(es, c, k);
  }

  lemma {:induction false} FoundIsNamed(es: seq<Entry>, k: string)
    requires Named(es) && Find(es, k).Some?
    ensures k != ""
  {
    if es[0].id != k {
      FoundIsNamed(es[1..], k);
    }
  }

  lemma ApplyLoads(f: File, c: Change)
    requires Apply(f, c).Ok?
    ensures Load(f).Ok? && Named(Load(f).value) && c.id != ""
    ensures Named(ChangedList(Load(f).value, c))
    ensures Load(Apply(f, c).value) == Ok(Sort(ById, ChangedList(Load(f).value, c)))
  {
    var es := Load(f).value;
    match f {
      case Array(items) => LoadedAreNamed(items);
      case _ =>
    }
    if !c.Add? {
      FoundIsNamed(es, c.id);
    }
    ChangedListFinds(es, c, "");
    SavedLoads(ChangedList(es, c));
  }

  /** Every other customer's entry stays what it was, whatever was in the file. */
  lemma OthersAreUntouched(f: File, c: Change, k: string)
    requires Apply(f, c).Ok? && k != c.id
    ensures Lookup(Apply(f, c).value, k) == Lookup(f, k)
    ensures UrlSalt(Apply(f, c).value, k) == UrlSalt(f, k)
  {
    ApplyLoads(f, c);
    ChangedListFinds(Load(f).value, c, k);
    FindSorted(ChangedList(Load(f).value, c), k);
  }

  /** The named entry becomes what the change says. */
  lemma NamedIsChanged(f: File, c: Change)
    requires Apply(f, c).Ok? && !c.Remove?
    ensures Lookup(Apply(f, c).value, c.id) ==
            Some(if c.Add? then NewEntry(c) else Changed(Find(Load(f).value, c.id).value, c))
  {
    var es := Load(f).value;
    ApplyLoads(f, c);
    FindSorted(ChangedList(es, c), c.id);
    if c.Add? {
      FindSnoc(es, NewEntry(c), c.id);
    } else {
      FindReplaced(es, c, c.id);
    }
  }

  /** A branding update replaces the fields it gives and keeps all others. */
  lemma BrandingIsMerged(f: File, id: string, b: Branding, key: string)
    requires Apply(f, UpdateBranding(id, b)).Ok?
    ensures Lookup(f, id).Some? && Lookup(Apply(f, UpdateBranding(id, b)).value, id).Some?
    ensures var before := Lookup(f, id).value.branding;
            var after := Lookup(Apply(f, UpdateBranding(id, b)).value, id).value.branding;
            after.Some? &&
            if key in b && key in BRANDING_KEYS && Strip(b[key]) != "" then
              key in after.value && after.value[key] == Strip(b[key])
            else if before.Some? && key in before.value then
              key in after.value && after.value[key] == before.value[key]
            else
              key !in after.value
  {
    NamedIsChanged(f, UpdateBranding(id, b));
  }

  /** What an add stores: the details as given, and of the branding the stripped fields that say something. */
  lemma AddStores(f: File, c: Change)
    requires c.Add? && Apply(f, c).Ok?
    ensures Lookup(Apply(f, c).value, c.id).Some?
    ensures var e := Lookup(Apply(f, c).value, c.id).value;
            e.id == c.id && e.details == c.details && (e.branding.None? <==> c.branding == map[])
    ensures forall key :: IsStored(Lookup(Apply(f, c).value, c.id).value.branding, c.branding, key)
  {
    NamedIsChanged(f, c);
    forall key
      ensures IsStored(Lookup(Apply(f, c).value, c.id).value.branding, c.branding, key)
    {
      BrandingKey(key);
    }
  }

  predicate IsStored(stored: Option<Branding>, given: Branding, key: string) {
    stored.Some? ==>
      if key in given && Strip(given[key]) != "" &&
         (key == "logo_path" || key == "hero_title" || key == "footer_text" || key == "pdf_watermark")
      then key in stored.value && stored.value[key] == Strip(given[key])
      else key !in stored.value
  }

  /** The salt that was stored is the salt that is read, for every salt and every registered customer. */
  lemma UrlSaltRoundTrip(f: File, c: Change)
    requires Apply(f, c).Ok? && (c.Add? || c.SetUrlSalt?)
    ensures UrlSalt(Apply(f, c).value, c.id) == Ok(c.salt)
  {
    NamedIsChanged(f, c);
    Base64.UnpaddedRoundTrip(c.salt);
    Base64.RepadStripped(c.salt);
  }

  /** After a rotation a token issued under another salt is refused, or HMAC collides. */
  lemma RotatedTokenIsRefused(mac: U.Mac, platform: Octets, f: File, id: string, salt: Octets, expiry: int, now: int)
    requires |platform| == 32 && Apply(f, SetUrlSalt(id, salt)).Ok? && UrlSalt(f, id) != Ok(salt)
    ensures UrlSalt(f, id).Ok? && UrlSalt(Apply(f, SetUrlSalt(id, salt)).value, id).Ok?
    ensures var before := UrlSalt(f, id).value;
            var after := UrlSalt(Apply(f, SetUrlSalt(id, salt)).value, id).value;
            U.Verify(mac, platform, id, U.Issue(mac, platform, id, expiry, before).value, after, now) == Ok(false) ||
            U.MacCollision(mac, U.Queries(mac, platform, id, before, expiry),
                           U.Queries(mac, platform, id, salt, expiry))
  {
    UrlSaltRoundTrip(f, SetUrlSalt(id, salt));
    U.OtherSaltIsRefused(mac, platform, id, UrlSalt(f, id).value, salt, expiry, now);
  }

  // ---- ids stay unique and sorted ------------------------------------------

  function Count(es: seq<Entry>, k: string): nat {
    if es == [] then 0 else (if es[0].id == k then 1 else 0) + Count(es[1..], k)
  }

  ghost predicate Unique(es: seq<Entry>) {
    forall k :: Count(es, k) <= 1
  }

  lemma {:induction false} CountInsert(x: Entry, es: seq<Entry>, k: string)
    ensures Count(Insert(ById, x, es), k) == Count(es, k) + if x.id == k then 1 else 0
  {
    if es != [] && !ById(x, es[0]) {
      var rest := Insert(ById, x, es[1..]);
      CountInsert(x, es[1..], k);
      assert ([es[0]] + rest)[1..] == rest;
    } else {
      assert ([x] + es)[1..] == es;
    }
  }

  lemma {:induction false} CountSorted(es: seq<Entry>, k: string)
    ensures Count(Sort(ById, es), k) == Count(es, k)
  {
    if es != [] {
      CountSorted(es[1..], k);
      CountInsert(es[0], Sort(ById, es[1..]), k);
    }
  }

  lemma {:induction false} CountFind(es: seq<Entry>, k: string)
    ensures Find(es, k).Some? <==> Count(es, k) > 0
  {
    if es != [] {
      CountFind(es[1..], k);
    }
  }

  lemma {:induction false} CountSnoc(es: seq<Entry>, x: Entry, k: string)
    ensures Count(es + [x], k) == Count(es, k) + if x.id == k then 1 else 0
  {
    if es == [] {
      assert [] + [x] == [x] && [x][1..] == [];
    } else {
      assert (es + [x])[1..] == es[1..] + [x];
      CountSnoc(es[1..], x, k);
    }
  }

  lemma {:induction false} CountReplaced(es: seq<Entry>, c: Change, k: string)
    ensures Count(Replaced(es, c), k) == Count(es, k)
  {
    if es != [] {
      if es[0].id == c.id {
        assert ([Changed(es[0], c)] + es[1..])[1..] == es[1..];
      } else {
        var rest := Replaced(es[1..], c);
        assert ([es[0]] + rest)[1..] == rest;
        CountReplaced(es[1..], c, k);
      }
    }
  }

  lemma {:induction false} CountRemoved(es: seq<Entry>, id: string, k: string)
    ensures Count(RemoveFirst(es, id), k) == Count(es, k) - if k == id && Count(es, k) > 0 then 1 else 0
  {
    if es != [] && es[0].id != id {
      var rest := RemoveFirst(es[1..], id);
      assert ([es[0]] + rest)[1..] == rest;
      CountRemoved(es[1..], id, k);
    }
  }

  /** Nothing but named customers, each id once, in the order of the ids. */
  ghost predicate Orderly(f: File) {
    f.Missing? || exists es :: f == Array(Items(es)) && Named(es) && Unique(es) && Sorted(ById, es)
  }

  lemma ChangedListUnique(es: seq<Entry>, c: Change)
    requires Unique(es) && (c.Add? ==> Find(es, c.id).None?)
    ensures Unique(ChangedList(es, c))
  {
    forall k
      ensures Count(ChangedList(es, c), k) <= 1
    {
      CountFind(es, k);
      match c
      case Add(_, _, _, _) => CountSnoc(es, NewEntry(c), k);
      case Remove(id) => CountRemoved(es, id, k);
      case _ => CountReplaced(es, c, k);
    }
  }

  lemma SortUnique(es: seq<Entry>)
    requires Unique(es)
    ensures Unique(Sort(ById, es))
  {
    forall k
      ensures Count(Sort(ById, es), k) <= 1
    {
      CountSorted(es, k);
    }
  }

  lemma SortedById(es: seq<Entry>)
    ensures Sorted(ById, Sort(ById, es))
  {
    StringOrder();
    SortSorts(ById, es);
  }

  /** Every change of an orderly registry leaves an orderly one. */
  lemma ChangesKeepOrder(f: File, c: Change)
    requires Orderly(f) && Apply(f, c).Ok?
    ensures Orderly(Apply(f, c).value)
  {
    var es := Load(f).value;
    ApplyLoads(f, c);
    if f.Array? {
      var listed :| f == Array(Items(listed)) && Named(listed) && Unique(listed) && Sorted(ById, listed);
      ItemsLoad(listed);
    }
    var after := ChangedList(es, c);
    ChangedListUnique(es, c);
    SortUnique(after);
    SortedById(after);
    SortNamed(after);
  }

  /** A rejected change leaves the file as it is. */
  function Step(f: File, c: Change): File {
    match Apply(f, c)
    case Err(_) => f
    case Ok(after) => after
  }

  function Run(f: File, changes: seq<Change>): File {
    if changes == [] then f else Step(Run(f, changes[..|changes| - 1]), changes[|changes| - 1])
  }

  /** Every registry reached from none has unique ids in sorted order. */
  lemma {:induction false} ReachableIsOrderly(changes: seq<Change>)
    ensures Orderly(Run(Missing, changes))
  {
    if changes != [] {
      var before := Run(Missing, changes[..|changes| - 1]);
      ReachableIsOrderly(changes[..|changes| - 1]);
      if Apply(before, changes[|changes| - 1]).Ok? {
        ChangesKeepOrder(before, changes[|changes| - 1]);
      }
    }
  }

  /** In an orderly registry a removed customer is gone. */
  lemma RemovedIsGone(f: File, id: string)
    requires Orderly(f) && Apply(f, Remove(id)).Ok?
    ensures Lookup(Apply(f, Remove(id)).value, id) == None && UrlSalt(Apply(f, Remove(id)).value, id) == Ok([])
  {
    var es := Load(f).value;
    ApplyLoads(f, Remove(id));
    if f.Array? {
      var listed :| f == Array(Items(listed)) && Named(listed) && Unique(listed) && Sorted(ById, listed);
      ItemsLoad(listed);
    }
    FindSorted(RemoveFirst(es, id), id);
    CountRemoved(es, id, id);
    CountFind(RemoveFirst(es, id), id);
  }

  // ---- the salt over runs of changes ---------------------------------------

  /** What the registry says of one customer as far as its tokens go. */
  datatype Standing = Absent | Registered(salt: Octets)

  function StandingIn(es: seq<Entry>, id: string): Standing {
    if Find(es, id).None? then Absent else Registered(SaltOf(Find(es, id)))
  }

  function CurrentSalt(s: Standing): Octets {
    if s.Absent? then [] else s.salt
  }

  /** A change as one customer's tokens see it. */
  function Moved(s: Standing, c: Change, id: string): Standing {
    if c.id != id then s
    else
      match c
      case Add(_, salt, _, _) => if s.Absent? && ValidId(id) then Registered(salt) else s
      case SetUrlSalt(_, salt) => if s.Absent? then s else Registered(salt)
      case Remove(_) => Absent
      case UpdateBranding(_, _) => s
  }

  function MovedAll(s: Standing, changes: seq<Change>, id: string): Standing {
    if changes == [] then s else Moved(MovedAll(s, changes[..|changes| - 1], id), changes[|changes| - 1], id)
  }

  /** The file can be read and lists no customer twice; it need not be sorted, and salts may be missing. */
  ghost predicate Usable(f: File) {
    Load(f).Ok? && Unique(Load(f).value)
  }

  /** Every registry that the changes build from none is usable. */
  lemma ReachableIsUsable(changes: seq<Change>)
    ensures Usable(Run(Missing, changes))
  {
    var f := Run(Missing, changes);
    ReachableIsOrderly(changes);
    if f.Array? {
      var es :| f == Array(Items(es)) && Named(es) && Unique(es) && Sorted(ById, es);
      ItemsLoad(es);
    } else {
      assert forall k :: Count([], k) == 0;
    }
  }

  lemma StaysUsable(f: File, c: Change)
    requires Usable(f)
    ensures Usable(Step(f, c))
  {
    if Apply(f, c).Ok? {
      ApplyLoads(f, c);
      ChangedListUnique(Load(f).value, c);
      SortUnique(ChangedList(Load(f).value, c));
    }
  }

  lemma BrandingKeepsSalt(f: File, c: Change)
    requires c.UpdateBranding? && Apply(f, c).Ok?
    ensures Load(Apply(f, c).value).Ok? && Load(f).Ok?
    ensures StandingIn(Load(Apply(f, c).value).value, c.id) == StandingIn(Load(f).value, c.id)
  {
    ApplyLoads(f, c);
    NamedIsChanged(f, c);
  }

  lemma RemoveMoves(f: File, c: Change)
    requires Usable(f) && c.Remove? && Apply(f, c).Ok?
    ensures Load(Apply(f, c).value).Ok? && StandingIn(Load(Apply(f, c).value).value, c.id) == Absent
  {
    var es := Load(f).value;
    ApplyLoads(f, c);
    FindSorted(RemoveFirst(es, c.id), c.id);
    CountRemoved(es, c.id, c.id);
    CountFind(RemoveFirst(es, c.id), c.id);
  }

  lemma SaltMoves(f: File, c: Change)
    requires (c.Add? || c.SetUrlSalt?) && Apply(f, c).Ok?
    ensures Load(Apply(f, c).value).Ok?
    ensures StandingIn(Load(Apply(f, c).value).value, c.id) == Registered(c.salt)
  {
    ApplyLoads(f, c);
    NamedIsChanged(f, c);
    UrlSaltRoundTrip(f, c);
  }

  lemma StepMoves(f: File, c: Change, id: string)
    requires Usable(f)
    ensures Usable(Step(f, c))
    ensures StandingIn(Load(Step(f, c)).value, id) == Moved(StandingIn(Load(f).value, id), c, id)
  {
    StaysUsable(f, c);
    if Apply(f, c).Ok? {
      if c.id != id {
        ApplyLoads(f, c);
        OthersAreUntouched(f, c, id);
      } else if c.Remove? {
        RemoveMoves(f, c);
      } else if c.UpdateBranding? {
        BrandingKeepsSalt(f, c);
      } else {
        SaltMoves(f, c);
      }
    }
  }

  /** The salt a run leaves is what the changes that name the customer make of the one before. */
  lemma {:induction false} SaltAfterRun(f: File, changes: seq<Change>, id: string)
    requires Usable(f)
    ensures Usable(Run(f, changes))
    ensures StandingIn(Load(Run(f, changes)).value, id) == MovedAll(StandingIn(Load(f).value, id), changes, id)
    ensures UrlSalt(Run(f, changes), id) == Ok(CurrentSalt(MovedAll(StandingIn(Load(f).value, id), changes, id)))
  {
    if changes != [] {
      SaltAfterRun(f, changes[..|changes| - 1], id);
      StepMoves(Run(f, changes[..|changes| - 1]), changes[|changes| - 1], id);
    }
  }

  /**
   * A token issued under the salt `s` is accepted after a run exactly when the salt then is
   * `s` and it is unexpired, or HMAC collides.
   */
  lemma TokenAfterRun(mac: U.Mac, platform: Octets, f: File, changes: seq<Change>, id: string, s: Octets,
                      expiry: int, now: int)
    requires |platform| == 32 && Usable(f)
    ensures UrlSalt(Run(f, changes), id).Ok?
    ensures var after := UrlSalt(Run(f, changes), id).value;
            after == CurrentSalt(MovedAll(StandingIn(Load(f).value, id), changes, id)) &&
            (U.Verify(mac, platform, id, U.Issue(mac, platform, id, expiry, s).value, after, now)
             == Ok(after == s && now <= expiry) ||
             U.MacCollision(mac, U.Queries(mac, platform, id, s, expiry), U.Queries(mac, platform, id, after, expiry)))
  {
    SaltAfterRun(f, changes, id);
    var after := UrlSalt(Run(f, changes), id).value;
    if after == s {
      U.IssuedVerifiesIffUnexpired(mac, platform, id, expiry, s, now);
    } else {
      U.OtherSaltIsRefused(mac, platform, id, s, after, expiry, now);
    }
  }

  /** No change gives the customer the salt `s`; a removal gives the empty one. */
  predicate Avoids(changes: seq<Change>, id: string, s: Octets) {
    forall i :: 0 <= i < |changes| && changes[i].id == id ==>
      match changes[i]
      case Remove(_) => s != []
      case UpdateBranding(_, _) => true
      case Add(_, salt, _, _) => salt != s
      case SetUrlSalt(_, salt) => salt != s
  }

  lemma {:induction false} SaltStaysAway(state: Standing, changes: seq<Change>, id: string, s: Octets)
    requires CurrentSalt(state) != s && Avoids(changes, id, s)
    ensures CurrentSalt(MovedAll(state, changes, id)) != s
  {
    if changes != [] {
      var n := |changes| - 1;
      assert Avoids(changes[..n], id, s);
      SaltStaysAway(state, changes[..n], id, s);
    }
  }

  /** A token revoked by a new salt stays refused until a change brings its salt back, or HMAC collides. */
  lemma RevokedForGood(mac: U.Mac, platform: Octets, f: File, changes: seq<Change>, id: string, s: Octets,
                       expiry: int, now: int)
    requires |platform| == 32 && Usable(f) && UrlSalt(f, id) != Ok(s) && Avoids(changes, id, s)
    ensures UrlSalt(Run(f, changes), id).Ok?
    ensures var after := UrlSalt(Run(f, changes), id).value;
            U.Verify(mac, platform, id, U.Issue(mac, platform, id, expiry, s).value, after, now) == Ok(false) ||
            U.MacCollision(mac, U.Queries(mac, platform, id, s, expiry), U.Queries(mac, platform, id, after, expiry))
  {
    TokenAfterRun(mac, platform, f, changes, id, s, expiry, now);
    SaltStaysAway(StandingIn(Load(f).value, id), changes, id, s);
  }

  /** Removing a customer brings the empty salt back, and with it every unexpired token issued before salts. */
  lemma RemovalRevivesLegacyTokens(mac: U.Mac, platform: Octets, f: File, changes: seq<Change>, id: string,
                                   expiry: int, now: int)
    requires |platform| == 32 && Usable(f)
    ensures UrlSalt(Run(f, changes + [Remove(id)]), id) == Ok([])
    ensures U.Verify(mac, platform, id, U.Issue(mac, platform, id, expiry, []).value,
                     UrlSalt(Run(f, changes + [Remove(id)]), id).value, now) == Ok(now <= expiry)
  {
    SaltAfterRun(f, changes + [Remove(id)], id);
    U.IssuedVerifiesIffUnexpired(mac, platform, id, expiry, [], now);
  }
}
