/**
 `ShowProcessor.process_posts`: turns scraped posts into show records. A
 caption classified as a show yields a record from its own fields; when its
 date or location is missing and the post has an image, the text recognised
 in the image fills the gaps; a record with neither a date nor a location is
 dropped. Scraping and the deletion of the temporary image are outside the
 model.
 */
module ShowProcessor {
  import opened Options
  import opened Strings
  import opened Dates
  import opened TextParser
  import opened OcrExtractor
  import opened Lists

  /** One scraped post, as the scraper's dictionary describes it. */
  datatype Post = Post(
    postUrl: string,
    username: string,
    caption: string,
    timestamp: Instant,
    imagePath: Option<string>)

  /** One show record; every text field is filled, "Unknown" where nothing was found. */
  datatype Show = Show(
    postUrl: string,
    username: string,
    displayName: string,
    caption: string,
    date: string,
    location: string,
    time: string)

  /** The code this module calls but that is outside the model. */
  datatype Services = Services(find: Finder, parse: DateParser, ocr: OcrEngine)

  const Unknown: string := "Unknown"

  /** The nickname saved for an account, or the account name itself. */
  function DisplayName(nicknames: map<string, string>, username: string): (r: string)
    ensures username in nicknames ==> r == nicknames[username]
    ensures username !in nicknames ==> r == username
  {
    if username in nicknames then nicknames[username] else username
  }

  /** Python's `value or 'Unknown'` on an optional string. */
  function OrUnknown(o: Option<string>): (r: string)
    ensures Truthy(o) ==> r == o.value
    ensures !Truthy(o) ==> r == Unknown
  {
    if Truthy(o) then o.value else Unknown
  }

  /** A record's three fields while it is being filled: the date may still be missing. */
  datatype Draft = Draft(date: Option<string>, location: string, time: string)

  /** The draft built from the caption alone. */
  function CaptionDraft(f: Fields): Draft {
    Draft(f.date, OrUnknown(f.location), OrUnknown(f.time))
  }

  /**
   Fills the missing fields of a draft from the image: a field that is already
   known is never overwritten, and a missing one takes the image's value
   whenever the image has one.
   */
  function FillMissing(d: Draft, image: Fields): (r: Draft)
    ensures Truthy(d.date) ==> r.date == d.date
    ensures d.location != Unknown ==> r.location == d.location
    ensures d.time != Unknown ==> r.time == d.time
    ensures !Truthy(d.date) && Truthy(image.date) ==> r.date == image.date
    ensures d.location == Unknown && Truthy(image.location) ==> r.location == image.location.value
    ensures d.time == Unknown && Truthy(image.time) ==> r.time == image.time.value
    ensures r.date != d.date ==> Truthy(image.date) && r.date == image.date
    ensures r.location != d.location ==> Truthy(image.location) && r.location == image.location.value
    ensures r.time != d.time ==> Truthy(image.time) && r.time == image.time.value
  {
    Draft(
      if !Truthy(d.date) && Truthy(image.date) then image.date else d.date,
      if d.location == Unknown && Truthy(image.location) then image.location.value else d.location,
      if d.time == Unknown && Truthy(image.time) then image.time.value else d.time)
  }

  /** Whether the post's image is read: its caption lacks a date or a location, and it has an image. */
  predicate ConsultsImage(post: Post, caption: Fields) {
    (!Truthy(caption.date) || OrUnknown(caption.location) == Unknown) && Truthy(post.imagePath)
  }

  /**
   The record for a show post, given the fields of its caption and the
   fields its image would yield; the latter are used only when the image is
   consulted.
   */
  function Assemble(post: Post, nicknames: map<string, string>, caption: Fields, image: Fields): (r: Option<Show>)
    ensures r.Some? ==> r.value.date != Unknown || r.value.location != Unknown
    ensures r.Some? ==>
              && r.value.postUrl == post.postUrl
              && r.value.username == post.username
              && r.value.caption == post.caption
              && r.value.displayName == DisplayName(nicknames, post.username)
    ensures r.Some? ==> r.value.date == Unknown || Some(r.value.date) == caption.date || Some(r.value.date) == image.date
    ensures r.Some? ==>
              && (Truthy(caption.date) ==> r.value.date == caption.date.value)
              && (Truthy(caption.location) && caption.location.value != Unknown ==> r.value.location == caption.location.value)
              && (Truthy(caption.time) && caption.time.value != Unknown ==> r.value.time == caption.time.value)
    ensures r.Some? ==>
              var consulted := ConsultsImage(post, caption);
              && (!Truthy(caption.date) ==>
                    r.value.date == if consulted && Truthy(image.date) then image.date.value else Unknown)
              && (OrUnknown(caption.location) == Unknown ==>
                    r.value.location == if consulted && Truthy(image.location) then image.location.value else Unknown)
              && (OrUnknown(caption.time) == Unknown ==>
                    r.value.time == if consulted && Truthy(image.time) then image.time.value else Unknown)
  {
    var draft := CaptionDraft(caption);
    var filled := if ConsultsImage(post, caption) then FillMissing(draft, image) else draft;
    var date := OrUnknown(filled.date);
    if date != Unknown || filled.location != Unknown
    then Some(Show(post.postUrl, post.username, DisplayName(nicknames, post.username), post.caption,
                   date, filled.location, filled.time))
    else None
  }

  /** The image's contribution is irrelevant unless the image is consulted. */
  lemma ImageIgnoredUnlessNeeded(post: Post, nicknames: map<string, string>, caption: Fields, image: Fields, image': Fields)
    requires !ConsultsImage(post, caption)
    ensures Assemble(post, nicknames, caption, image) == Assemble(post, nicknames, caption, image')
  {
  }

  /** A caption date that is not the placeholder always keeps the record, with that date. */
  lemma CaptionDateKeepsRecord(post: Post, nicknames: map<string, string>, caption: Fields, image: Fields)
    requires Truthy(caption.date) && caption.date.value != Unknown
    ensures var r := Assemble(post, nicknames, caption, image);
            r.Some? && Some(r.value.date) == caption.date
  {
  }

  /** A caption location always keeps the record, with that location (unless it reads "Unknown"). */
  lemma CaptionLocationKeepsRecord(post: Post, nicknames: map<string, string>, caption: Fields, image: Fields)
    requires Truthy(caption.location) && caption.location.value != Unknown
    ensures var r := Assemble(post, nicknames, caption, image);
            r.Some? && Some(r.value.location) == caption.location
  {
  }

  /**
   A missing caption date is taken from the image when the post has an image
   and the image yields one; the record is then kept.
   */
  lemma ImageSuppliesMissingDate(post: Post, nicknames: map<string, string>, caption: Fields, image: Fields)
    requires !Truthy(caption.date) && Truthy(post.imagePath)
    requires Truthy(image.date) && image.date.value != Unknown
    ensures var r := Assemble(post, nicknames, caption, image);
            r.Some? && Some(r.value.date) == image.date
  {
  }

  /**
   A missing caption location is taken from the image when the post has an
   image and the image yields one; unless that location reads "Unknown", the
   record is then kept.
   */
  lemma ImageSuppliesMissingLocation(post: Post, nicknames: map<string, string>, caption: Fields, image: Fields)
    requires OrUnknown(caption.location) == Unknown && Truthy(post.imagePath)
    requires Truthy(image.location)
    ensures var r := Assemble(post, nicknames, caption, image);
            && (r.Some? ==> r.value.location == image.location.value)
            && (image.location.value != Unknown ==> r.Some?)
  {
  }

  /**
   A caption with a date but no location, and an image naming the venue and
   another date, give a record with the caption's date and the image's venue.
   */
  lemma VenueFromImage(post: Post, nicknames: map<string, string>)
    requires Truthy(post.imagePath)
    ensures var caption := Fields(Some("2024-05-01"), None, None);
            var image := Fields(Some("2024-05-02"), Some("The Venue"), None);
            var r := Assemble(post, nicknames, caption, image);
            r.Some? && r.value.date == "2024-05-01" && r.value.location == "The Venue" && r.value.time == Unknown
  {
  }

  /**
   A missing caption time is taken from the image whenever the image is
   consulted (for a missing date or location) and yields a time.
   */
  lemma ImageSuppliesMissingTime(post: Post, nicknames: map<string, string>, caption: Fields, image: Fields)
    requires ConsultsImage(post, caption)
    requires OrUnknown(caption.time) == Unknown && Truthy(image.time)
    ensures var r := Assemble(post, nicknames, caption, image);
            r.Some? ==> r.value.time == image.time.value
  {
  }

  /** A record is dropped exactly when neither a date nor a location is known once the image has been used. */
  lemma DroppedIffNothingKnown(post: Post, nicknames: map<string, string>, caption: Fields, image: Fields)
    requires !Truthy(caption.date) || caption.date.value != Unknown
    requires !Truthy(image.date) || image.date.value != Unknown
    ensures var filled := if ConsultsImage(post, caption) then FillMissing(CaptionDraft(caption), image) else CaptionDraft(caption);
            Assemble(post, nicknames, caption, image).None? <==> !Truthy(filled.date) && filled.location == Unknown
  {
  }

  /** What the post's image yields, or nothing when it has none. */
  function ImageFields(post: Post, env: Services): (r: Fields)
    ensures !Truthy(post.imagePath) ==> r == NoFields
    ensures Truthy(post.imagePath) ==> r == ExtractShowInfoFromImage(env.ocr, post.imagePath.value, post.timestamp, env.find, env.parse)
  {
    if Truthy(post.imagePath)
    then ExtractShowInfoFromImage(env.ocr, post.imagePath.value, post.timestamp, env.find, env.parse)
    else NoFields
  }

  /** The body of the loop of `process_posts` for one post: a record, or None when the post is skipped. */
  function ProcessPost(post: Post, nicknames: map<string, string>, env: Services): (r: Option<Show>)
    ensures !IsShowPost(post.caption, env.find) ==> r == None
    ensures r.Some? ==> IsShowPost(post.caption, env.find)
    ensures r.Some? ==> r.value.date != Unknown || r.value.location != Unknown
    ensures r.Some? ==> r.value.username == post.username && r.value.displayName == DisplayName(nicknames, post.username)
    ensures IsShowPost(post.caption, env.find) ==>
              r == Assemble(post, nicknames, ParseShowInfo(post.caption, post.timestamp, env.find, env.parse).fields, ImageFields(post, env))
  {
    var info := ParseShowInfo(post.caption, post.timestamp, env.find, env.parse);
    if !info.isShow then None
    else Assemble(post, nicknames, info.fields, ImageFields(post, env))
  }

  /** A date that ends up in a record is either the placeholder or exactly the `YYYY-MM-DD` rendering of a date. */
  lemma ProcessedDateReadable(post: Post, nicknames: map<string, string>, env: Services)
    ensures var r := ProcessPost(post, nicknames, env);
            r.Some? ==> r.value.date == Unknown || IsDateString(r.value.date)
  {
    var r := ProcessPost(post, nicknames, env);
    if r.Some? {
      var caption := ExtractFields(post.caption, post.timestamp, env.find, env.parse);
      var image := ImageFields(post, env);
      FieldsDateReadable(post.caption, post.timestamp, env.find, env.parse);
      if Truthy(post.imagePath) {
        ImageDateReadable(env.ocr, post.imagePath.value, post.timestamp, env.find, env.parse);
      }
      assert r == Assemble(post, nicknames, caption, image);
    }
  }

  /** A show post whose caption gives a date is always kept, with that date. */
  lemma CaptionDateKeepsPost(post: Post, nicknames: map<string, string>, env: Services)
    requires IsShowPost(post.caption, env.find)
    requires Truthy(ExtractFields(post.caption, post.timestamp, env.find, env.parse).date)
    ensures var r := ProcessPost(post, nicknames, env);
            r.Some? && Some(r.value.date) == ExtractFields(post.caption, post.timestamp, env.find, env.parse).date
  {
    var caption := ExtractFields(post.caption, post.timestamp, env.find, env.parse);
    FieldsDateReadable(post.caption, post.timestamp, env.find, env.parse);
    CaptionDateKeepsRecord(post, nicknames, caption, ImageFields(post, env));
  }

  /** When the image is not consulted, what the OCR engine would return makes no difference. */
  lemma OcrIgnoredUnlessNeeded(post: Post, nicknames: map<string, string>, env: Services, ocr': OcrEngine)
    requires !ConsultsImage(post, ExtractFields(post.caption, post.timestamp, env.find, env.parse))
    ensures ProcessPost(post, nicknames, env) == ProcessPost(post, nicknames, env.(ocr := ocr'))
  {
    var caption := ExtractFields(post.caption, post.timestamp, env.find, env.parse);
    ImageIgnoredUnlessNeeded(post, nicknames, caption, ImageFields(post, env), ImageFields(post, env.(ocr := ocr')));
  }

  /** `process_posts` over a list of posts: the records of the kept posts, in post order. */
  function ProcessPosts(posts: seq<Post>, nicknames: map<string, string>, env: Services): (r: seq<Show>)
    ensures |r| <= |posts|
    ensures forall s :: s in r ==> exists i :: 0 <= i < |posts| && ProcessPost(posts[i], nicknames, env) == Some(s)
    ensures forall s :: s in r ==> s.date != Unknown || s.location != Unknown
  {
    FilterMap(posts, (p: Post) => ProcessPost(p, nicknames, env))
  }

  /** Processing a concatenation of post lists is concatenating their records. */
  lemma ProcessPostsAppend(a: seq<Post>, b: seq<Post>, nicknames: map<string, string>, env: Services)
    ensures ProcessPosts(a + b, nicknames, env) == ProcessPosts(a, nicknames, env) + ProcessPosts(b, nicknames, env)
  {
    FilterMapAppend(a, b, (p: Post) => ProcessPost(p, nicknames, env));
  }

  /** Every post that yields a record contributes it to the result. */
  lemma ProcessPostsComplete(posts: seq<Post>, nicknames: map<string, string>, env: Services, i: int)
    requires 0 <= i < |posts| && ProcessPost(posts[i], nicknames, env).Some?
    ensures ProcessPost(posts[i], nicknames, env).value in ProcessPosts(posts, nicknames, env)
  {
    FilterMapComplete(posts, (p: Post) => ProcessPost(p, nicknames, env), i);
  }
}
