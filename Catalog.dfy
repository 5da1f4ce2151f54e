/**
  Catalog records of movies/models.py and their derived values: slugs filled
  on save, the download URL, and the download and server option lists that
  fall back to one default entry. `slugify` and `reverse` are parameters.
*/
module Catalog {
  import opened Wrappers

  datatype Category = Category(name: string, slug: string, description: string)

  datatype Language = Language(name: string, slug: string)

  /** One entry of a JSON option list, restricted to string values. */
  type JsonObject = map<string, string>

  /**
    A movie row. Dates and times are day and instant ordinals, ratings are in
    tenths. `categories` and `languages` stand for the related managers'
    `.all()`, which Django orders by each model's `Meta.ordering` (name).
  */
  datatype Movie = Movie(
    pk: nat,
    title: string,
    slug: string,
    tagline: string,
    description: string,
    releaseYear: nat,
    releaseDate: Option<int>,
    rating: Option<int>,
    downloadUrl: string,
    downloadOptions: seq<JsonObject>,
    serverOptions: seq<JsonObject>,
    isTrending: bool,
    categories: seq<Category>,
    languages: seq<Language>,
    quality: string,
    createdAt: int)

  datatype Comment = Comment(name: string, email: string, body: string, isApproved: bool, createdAt: int)

  // ---------------------------------------------------------------------------
  // save(): the slug is derived from the name only while it is empty

  /** The slug a row holds after `save()`. */
  function SlugOnSave(slug: string, source: string, slugify: string -> string): (r: string)
    ensures slug != [] ==> r == slug
    ensures slug == [] ==> r == slugify(source)
  {
    if slug == [] then slugify(source) else slug
  }

  /** Saving twice leaves the slug that saving once left. */
  lemma SlugOnSaveIdempotent(slug: string, source: string, slugify: string -> string)
    ensures SlugOnSave(SlugOnSave(slug, source, slugify), source, slugify) == SlugOnSave(slug, source, slugify)
  {
  }

  /** A category instance whose `save()` fills the slug. */
  class CategoryInstance {
    var row: Category

    constructor (row: Category)
      ensures this.row == row
    {
      this.row := row;
    }

    method Save(slugify: string -> string)
      modifies this
      ensures row == old(row).(slug := SlugOnSave(old(row).slug, old(row).name, slugify))
    {
      if row.slug == [] {
        row := row.(slug := slugify(row.name));
      }
    }
  }

  /** A language instance whose `save()` fills the slug. */
  class LanguageInstance {
    var row: Language

    constructor (row: Language)
      ensures this.row == row
    {
      this.row := row;
    }

    method Save(slugify: string -> string)
      modifies this
      ensures row == old(row).(slug := SlugOnSave(old(row).slug, old(row).name, slugify))
    {
      if row.slug == [] {
        row := row.(slug := slugify(row.name));
      }
    }
  }

  /** A movie instance whose `save()` fills the slug from the title. */
  class MovieInstance {
    var row: Movie

    constructor (row: Movie)
      ensures this.row == row
    {
      this.row := row;
    }

    method Save(slugify: string -> string)
      modifies this
      ensures row == old(row).(slug := SlugOnSave(old(row).slug, old(row).title, slugify))
    {
      if row.slug == [] {
        row := row.(slug := slugify(row.title));
      }
    }
  }

  // ---------------------------------------------------------------------------
  // download links

  /** The stored download URL, else the download page route for the slug. */
  function DownloadUrl(m: Movie, downloadRoute: string -> string): (r: string)
    ensures m.downloadUrl != [] ==> r == m.downloadUrl
    ensures m.downloadUrl == [] ==> r == downloadRoute(m.slug)
  {
    if m.downloadUrl != [] then m.downloadUrl else downloadRoute(m.slug)
  }

  /** The default download option, pointing at `url`. */
  function DefaultDownloadOption(url: string): (o: JsonObject)
    ensures "download_url" in o && o["download_url"] == url
  {
    map[
      "label" := "Full HD (1080p)",
      "badge" := "Popular",
      "resolution" := "1920 x 1080",
      "file_size" := "2-4 GB",
      "file_format" := "MP4 / MKV",
      "bitrate" := "8-12 Mbps",
      "download_url" := url,
      "cta_text" := "Download 1080p"]
  }

  /** The default server option, pointing at `url`. */
  function DefaultServerOption(url: string): (o: JsonObject)
    ensures "url" in o && o["url"] == url
  {
    map[
      "name" := "Server 1 - Direct Download",
      "badge" := "Fast",
      "badge_variant" := "success",
      "description" := "Direct download link - No waiting",
      "speed" := "10 MB/s",
      "active_users" := "1,234",
      "url" := url,
      "cta_text" := "Select Server 1"]
  }

  /** The stored download options, or exactly one default entry linking to the download URL. */
  function DownloadOptions(m: Movie, downloadRoute: string -> string): (r: seq<JsonObject>)
    ensures r != []
    ensures m.downloadOptions != [] ==> r == m.downloadOptions
    ensures m.downloadOptions == [] ==>
      |r| == 1 && "download_url" in r[0] && r[0]["download_url"] == DownloadUrl(m, downloadRoute)
  {
    if m.downloadOptions != [] then m.downloadOptions
    else [DefaultDownloadOption(DownloadUrl(m, downloadRoute))]
  }

  /** The stored server options, or exactly one default entry linking to the download URL. */
  function ServerOptions(m: Movie, downloadRoute: string -> string): (r: seq<JsonObject>)
    ensures r != []
    ensures m.serverOptions != [] ==> r == m.serverOptions
    ensures m.serverOptions == [] ==>
      |r| == 1 && "url" in r[0] && r[0]["url"] == DownloadUrl(m, downloadRoute)
  {
    if m.serverOptions != [] then m.serverOptions
    else [DefaultServerOption(DownloadUrl(m, downloadRoute))]
  }

  /** The names of `languages`, position by position. */
  function Names(languages: seq<Language>): (r: seq<string>)
    ensures |r| == |languages|
    ensures forall i :: 0 <= i < |r| ==> r[i] == languages[i].name
  {
    if languages == [] then [] else [languages[0].name] + Names(languages[1..])
  }

  /** `Movie.language_names()`. */
  function LanguageNames(m: Movie): (r: seq<string>)
    ensures |r| == |m.languages|
    ensures forall i :: 0 <= i < |r| ==> r[i] == m.languages[i].name
  {
    Names(m.languages)
  }
}
