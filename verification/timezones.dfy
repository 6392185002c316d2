/**
  Turning a token written between braces into a timezone. The timezone
  database (pytz and tzlocal) is outside the model: `TzDatabase` is a
  snapshot of what its three lookups answer, and only the dispatch between
  them and the fallback to the `?` marker is modelled.
 */
module Timezones {
  import opened Python

  /** A resolved zone is known by its canonical identifier (`zone.zone`). */
  datatype Zone = Unresolved | Resolved(id: string)

  /** What the database answers:
      - `local`: tzlocal.get_localzone(), or None when it raises;
      - `countries`: pytz.country_timezones, defined on the codes it knows;
      - `names`: pytz.timezone, from each accepted name to the canonical
        identifier of the zone it returns. */
  datatype TzDatabase = TzDatabase(
    local: Option<string>,
    countries: map<string, seq<string>>,
    names: map<string, string>)
  {
    /** pytz lists at least one zone for every country code it knows. */
    predicate Consistent() {
      forall code :: code in countries ==> |countries[code]| > 0
    }
  }

  /** `pytz.timezone(name)`, with UnknownTimeZoneError giving the marker. */
  function ByName(db: TzDatabase, name: string): (z: Zone)
    ensures z.Resolved? <==> name in db.names
    ensures z.Resolved? ==> z.id == db.names[name]
  {
    if name in db.names then Resolved(db.names[name]) else Unresolved
  }

  /** `_get_timezone`: `Local` asks for the local zone; any other
      two-character token is a country code whose first listed zone is
      taken; everything else is a zone name. Every failure gives the
      marker, never an error. */
  function Resolve(db: TzDatabase, token: string): (z: Zone)
    requires db.Consistent()
    ensures token == "Local" ==> (z.Resolved? <==> db.local.Some?)
    ensures token == "Local" && z.Resolved? ==> z.id == db.local.value
    ensures |token| == 2 ==>
              (z.Resolved? <==> token in db.countries && db.countries[token][0] in db.names)
    ensures |token| == 2 && z.Resolved? ==> z.id == db.names[db.countries[token][0]]
    ensures token != "Local" && |token| != 2 ==> z == ByName(db, token)
  {
    if token == "Local" then
      match db.local
      case Some(id) => Resolved(id)
      case None => Unresolved
    else if |token| == 2 then
      if token in db.countries then ByName(db, db.countries[token][0]) else Unresolved
    else ByName(db, token)
  }

  /** A two-character token is only ever read as a country code: whether
      the name table knows it as a zone name makes no difference. */
  lemma CountryCodeShadowsName(db: TzDatabase, token: string, id: string)
    requires db.Consistent() && |token| == 2
    ensures Resolve(db, token) == Resolve(db.(names := db.names[token := id]), token)
            || (token in db.countries && db.countries[token][0] == token)
  {
  }

  /** An unknown country code renders as the marker whatever else the
      database holds. */
  lemma UnknownCountry(db: TzDatabase, token: string)
    requires db.Consistent() && |token| == 2 && token !in db.countries
    ensures Resolve(db, token) == Unresolved
  {
  }

  /** The friendly `{name}`: the last `/`-segment of the identifier with
      underscores shown as spaces. */
  function FriendlyName(id: string): (name: string)
    ensures '/' !in name && '_' !in name
    ensures |name| <= |id|
    ensures forall i :: 0 <= i < |name| ==>
              var c := id[|id| - |name| + i]; name[i] == (if c == '_' then ' ' else c)
    ensures |name| < |id| ==> id[|id| - |name| - 1] == '/'
  {
    var segment := LastSegment(id);
    ReplaceChar(segment, '_', ' ');
    Replace(segment, "_", " ")
  }

  /** The segment after a `/` that is followed by no other `/` is the last. */
  lemma LastSegmentAt(id: string, k: nat)
    requires k <= |id| && '/' !in id[k..] && (k > 0 ==> id[k - 1] == '/')
    ensures LastSegment(id) == id[k..]
  {
  }

  lemma FriendlyNameAt(id: string, k: nat, name: string)
    requires k <= |id| && '/' !in id[k..] && (k > 0 ==> id[k - 1] == '/')
    requires |name| == |id| - k
    requires forall i :: 0 <= i < |name| ==>
               name[i] == (if id[k + i] == '_' then ' ' else id[k + i])
    ensures FriendlyName(id) == name
  {
    LastSegmentAt(id, k);
    ReplaceChar(id[k..], '_', ' ');
  }

  lemma BuenosAires()
    ensures FriendlyName("America/Argentina/Buenos_Aires") == "Buenos Aires"
  {
    FriendlyNameAt("America/Argentina/Buenos_Aires", 18, "Buenos Aires");
  }
}
