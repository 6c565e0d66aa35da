/**
 * The pure rules of the settings routes: the latest row is the settings in force,
 * the public view exposes three of its columns, and PUT merges only the supplied fields.
 */
module SettingsRules {
  import opened Wrappers
  import opened Domain

  /** `findFirst({ orderBy: { createdAt: 'desc' } })`: a row created no earlier than every other, or None for no rows. */
  function Latest(rows: seq<Settings>): (r: Option<Settings>)
    ensures r.None? <==> rows == []
    ensures r.Some? ==> r.value in rows && forall s :: s in rows ==> s.createdAt <= r.value.createdAt
  {
    if rows == [] then None
    else
      match Latest(rows[1..])
      case None => Some(rows[0])
      case Some(best) => if rows[0].createdAt >= best.createdAt then Some(rows[0]) else Some(best)
  }

  /** When creation times differ, the latest row is the one with the greatest creation time. */
  lemma LatestIsUnique(rows: seq<Settings>, s: Settings)
    requires s in rows
    requires forall t :: t in rows ==> t.createdAt <= s.createdAt
    requires forall t, u :: t in rows && u in rows && t.createdAt == u.createdAt ==> t == u
    ensures Latest(rows) == Some(s)
  {
  }

  /** The three columns GET /settings/public exposes. */
  datatype PublicSettings = PublicSettings(openingHours: Json, socialLinks: Json, texts: Json)

  /** GET /settings/public: null without a row, else only opening hours, social links and texts. */
  function PublicView(latest: Option<Settings>): (r: Option<PublicSettings>)
    ensures r.None? <==> latest.None?
    ensures r.Some? ==> (&& r.value.openingHours == latest.value.openingHours
                         && r.value.socialLinks == latest.value.socialLinks
                         && r.value.texts == latest.value.texts)
  {
    match latest
    case None => None
    case Some(s) => Some(PublicSettings(s.openingHours, s.socialLinks, s.texts))
  }

  /** PUT /settings on an existing row: each supplied field replaces its column, each omitted one keeps it. */
  function Merge(row: Settings, openingHours: Option<Json>, socialLinks: Option<Json>, texts: Option<Json>)
    : (r: Settings)
    ensures r.id == row.id && r.createdAt == row.createdAt
    ensures r.openingHours == openingHours.GetOr(row.openingHours)
    ensures r.socialLinks == socialLinks.GetOr(row.socialLinks)
    ensures r.texts == texts.GetOr(row.texts)
  {
    row.(openingHours := openingHours.GetOr(row.openingHours),
         socialLinks := socialLinks.GetOr(row.socialLinks),
         texts := texts.GetOr(row.texts))
  }

  /** Merging the same fields twice changes nothing more; merging no fields changes nothing. */
  lemma MergeIdempotent(row: Settings, openingHours: Option<Json>, socialLinks: Option<Json>, texts: Option<Json>)
    ensures Merge(Merge(row, openingHours, socialLinks, texts), openingHours, socialLinks, texts)
         == Merge(row, openingHours, socialLinks, texts)
    ensures Merge(row, None, None, None) == row
  {
  }

  /** PUT /settings with no row yet: a new row with `{}` for each omitted field. */
  function Initial(id: Id, createdAt: nat, openingHours: Option<Json>, socialLinks: Option<Json>, texts: Option<Json>)
    : (r: Settings)
    ensures r.id == id && r.createdAt == createdAt
    ensures r.openingHours == openingHours.GetOr(map[])
    ensures r.socialLinks == socialLinks.GetOr(map[])
    ensures r.texts == texts.GetOr(map[])
  {
    Settings(id, openingHours.GetOr(map[]), socialLinks.GetOr(map[]), texts.GetOr(map[]), createdAt)
  }
}
