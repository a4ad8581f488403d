/**
 * The category controller: `validateCategory` and `createCategoria`, the
 * partial update `validateCategoryUpdate`/`updateCategoria` with its
 * COALESCE columns and image routing, and the listing `getCategorias`.
 *
 * express-validator's `isURL` is a parameter. Its `escape` sanitizer runs
 * inside the chains, so the controller sees escaped values; the general
 * operations take it as a parameter, and `ValidatorEscape` spells out the
 * library's character table for the discrepancy it causes in the routing.
 */
module Categories {
  import opened Wrappers
  import opened Text
  import opened Store

  datatype CategoryInput = CategoryInput(name: Option<string>, imageUrl: Option<string>, description: Option<string>)

  datatype Reply = CreatedId(id: int) | Message(text: string) | ErrorMessage(error: string) | Invalid(errors: seq<FieldError>)

  datatype Response = Response(status: int, reply: Reply)

  // ---------------------------------------------------------------------------
  // Create
  // ---------------------------------------------------------------------------

  /** What `validateCategory` accepts: a trimmed name of 3–100 characters, a
      URL, and a description of at most 2000 characters when one is sent. */
  predicate ValidCategory(c: CategoryInput, isURL: string -> bool) {
    && 3 <= IsLengthCount(Trimmed(c.name)) <= 100
    && Trimmed(c.imageUrl) != "" && isURL(Trimmed(c.imageUrl))
    && (c.description.Some? ==> IsLengthCount(c.description.value) <= 2000)
  }

  function CategoryErrors(c: CategoryInput, isURL: string -> bool): (errs: seq<FieldError>)
    ensures errs == [] <==> ValidCategory(c, isURL)
  {
    var name := TextErrors(Trimmed(c.name), 3, 100, "name",
                           "El nombre es obligatorio", "El nombre debe tener entre 3 y 100 caracteres");
    var url := Trimmed(c.imageUrl);
    var image := Check(url != "", "image_url", "La imagen es obligatoria")
                 + Check(isURL(url), "image_url", "La imagen debe ser una URL válida");
    var desc := Check(c.description.None? || IsLengthCount(c.description.value) <= 2000, "description", "La descripción es demasiado larga");
    name + (image + desc)
  }

  /** `description || null`: an empty description is stored as NULL. */
  function StoredDescription(d: Option<string>): (r: Option<string>)
    ensures r.Some? <==> d.Some? && d.value != ""
    ensures r.Some? ==> r == d
  {
    if d.Some? && d.value != "" then d else None
  }

  /** `createCategoria`: inserts the escaped, trimmed name and URL under the next serial. */
  function CreateCategoria(db: Db, c: CategoryInput, isURL: string -> bool, escape: string -> string): (r: (Db, Response))
    ensures !ValidCategory(c, isURL) ==> r == (db, Response(400, Invalid(CategoryErrors(c, isURL))))
    ensures ValidCategory(c, isURL) ==> r == (InsertCategory(db, c, escape), Response(201, CreatedId(db.serials.category + 1)))
  {
    var errs := CategoryErrors(c, isURL);
    if errs != [] then (db, Response(400, Invalid(errs)))
    else (InsertCategory(db, c, escape), Response(201, CreatedId(db.serials.category + 1)))
  }

  /** The `INSERT` of a validated body under the next serial. */
  function InsertCategory(db: Db, c: CategoryInput, escape: string -> string): (r: Db)
    ensures r.serials == db.serials.(category := db.serials.category + 1)
    ensures r.categories.Keys == db.categories.Keys + {db.serials.category + 1}
    ensures forall k | k in db.categories && k != db.serials.category + 1 :: r.categories[k] == db.categories[k]
  {
    var id := db.serials.category + 1;
    var row := Category(escape(Trimmed(c.name)), Some(escape(Trimmed(c.imageUrl))), None, StoredDescription(c.description), None);
    db.(categories := db.categories[id := row], serials := db.serials.(category := id))
  }

  /** The insert adds one row under the next serial, holding the escaped,
      trimmed name and URL, and changes nothing else. */
  lemma {:induction false} InsertedCategory(db: Db, c: CategoryInput, escape: string -> string)
    ensures var id := db.serials.category + 1;
            var after := InsertCategory(db, c, escape);
            && after.categories.Keys == db.categories.Keys + {id}
            && (forall k | k in db.categories && k != id :: after.categories[k] == db.categories[k])
            && after.categories[id] == Category(escape(Trimmed(c.name)), Some(escape(Trimmed(c.imageUrl))), None,
                                                StoredDescription(c.description), None)
            && after == db.(categories := after.categories, serials := db.serials.(category := id))
  {
  }

  // ---------------------------------------------------------------------------
  // Update validation
  // ---------------------------------------------------------------------------

  /** `/^https?:\/\//i` (and PostgreSQL's `~* '^(https?://)'`): an http(s) URL in any case. */
  predicate HttpPrefix(v: string) {
    StartsWith(Lower(v), "http://") || StartsWith(Lower(v), "https://")
  }

  predicate AsciiLetter(c: char) {
    'A' <= c <= 'Z' || 'a' <= c <= 'z'
  }

  /** `/^[A-Za-z]:\\/`: a Windows drive path. */
  predicate DrivePath(v: string) {
    |v| >= 3 && AsciiLetter(v[0]) && v[1] == ':' && v[2] == '\\'
  }

  /** The custom `image_url` check of `validateCategoryUpdate`, on the trimmed value. */
  predicate ImageAccepted(v: string) {
    v == "" || HttpPrefix(v) || '/' in v || '\\' in v || DrivePath(v)
  }

  /** The accepted values are exactly the empty one and those containing a
      slash or a backslash: an http(s) URL contains '/', and a drive path '\'. */
  lemma {:induction false} ImageAcceptedSlashes(v: string)
    ensures ImageAccepted(v) <==> v == "" || '/' in v || '\\' in v
  {
    if HttpPrefix(v) {
      assert Lower(v)[5] == '/' || Lower(v)[6] == '/';
      assert v[5] == '/' || v[6] == '/';
    }
    if DrivePath(v) {
      assert v[2] == '\\';
    }
  }

  /** What `validateCategoryUpdate` accepts: every field optional; a sent name
      of 3–100 characters after trimming, a sent image the custom check
      accepts, a sent description of at most 2000 characters. */
  predicate ValidUpdate(c: CategoryInput) {
    NameFits(c.name) && ImageFits(c.imageUrl) && DescriptionFits(c.description)
  }

  predicate NameFits(name: Option<string>) {
    name.Some? ==> 3 <= IsLengthCount(Trim(name.value)) <= 100
  }

  predicate ImageFits(image: Option<string>) {
    image.Some? ==> ImageAccepted(Trim(image.value))
  }

  predicate DescriptionFits(description: Option<string>) {
    description.Some? ==> IsLengthCount(description.value) <= 2000
  }

  function UpdateErrors(c: CategoryInput): (errs: seq<FieldError>)
    ensures errs == [] <==> ValidUpdate(c)
  {
    var name := Check(NameFits(c.name), "name", "El nombre debe tener entre 3 y 100 caracteres");
    var image := Check(ImageFits(c.imageUrl), "image_url", "La imagen debe ser una URL http(s) o una ruta válida");
    var desc := Check(DescriptionFits(c.description), "description", "La descripción es demasiado larga");
    assert name + (image + desc) == [] <==> name == [] && image == [] && desc == [];
    name + (image + desc)
  }

  // ---------------------------------------------------------------------------
  // Update: COALESCE columns and image routing
  // ---------------------------------------------------------------------------

  /** The three query parameters: absent fields become NULL, an empty description too. */
  datatype Params = Params(name: Option<string>, image: Option<string>, description: Option<string>)

  function UpdateParams(c: CategoryInput, escape: string -> string): (p: Params)
    ensures p.name.Some? <==> c.name.Some?
    ensures p.image.Some? <==> c.imageUrl.Some?
    ensures p.description == StoredDescription(c.description)
  {
    Params(if c.name.Some? then Some(escape(Trim(c.name.value))) else None,
           if c.imageUrl.Some? then Some(escape(Trim(c.imageUrl.value))) else None,
           StoredDescription(c.description))
  }

  /**
   * The `SET` of `updateCategoria`: `COALESCE` on name and description, and
   * the image value routed by the `CASE` pair — kept when NULL, into
   * `image_url` when `isUrl`, otherwise into `image_file_path` with
   * `image_url` cleared.
   */
  function Apply(cat: Category, p: Params, isUrl: bool): (r: Category)
    ensures r.name == (if p.name.Some? then p.name.value else cat.name)
    ensures r.description == Coalesce(p.description, cat.description)
    ensures r.deletedAt == cat.deletedAt
    ensures p.image.None? ==> r.imageUrl == cat.imageUrl && r.imageFilePath == cat.imageFilePath
    ensures p.image.Some? && isUrl ==> r.imageUrl == p.image && r.imageFilePath == cat.imageFilePath
    ensures p.image.Some? && !isUrl ==> r.imageUrl.None? && r.imageFilePath == p.image
  {
    var named := cat.(name := if p.name.Some? then p.name.value else cat.name,
                      description := Coalesce(p.description, cat.description));
    if p.image.None? then named
    else if isUrl then named.(imageUrl := p.image)
    else named.(imageUrl := None, imageFilePath := p.image)
  }

  /** The update handler, with the routing test made on `decide` applied to the sent image. */
  function UpdateWith(db: Db, id: int, c: CategoryInput, escape: string -> string, decide: string -> string): (r: (Db, Response))
    ensures !ValidUpdate(c) ==> r == (db, Response(400, Invalid(UpdateErrors(c))))
    ensures ValidUpdate(c) ==> r.1 == Response(200, Message("Categoría actualizada correctamente"))
    ensures r.0 == db.(categories := r.0.categories)
  {
    var errs := UpdateErrors(c);
    if errs != [] then (db, Response(400, Invalid(errs)))
    else
      var p := UpdateParams(c, escape);
      var isUrl := c.imageUrl.Some? && HttpPrefix(decide(Trim(c.imageUrl.value)));
      var categories := if id in db.categories then db.categories[id := Apply(db.categories[id], p, isUrl)] else db.categories;
      (db.(categories := categories), Response(200, Message("Categoría actualizada correctamente")))
  }

  /** The update writes the category's row and no other: an invalid body or
      an unknown id leaves the store as it was. */
  lemma {:induction false} UpdatedCategory(db: Db, id: int, c: CategoryInput, escape: string -> string, decide: string -> string)
    ensures var after := UpdateWith(db, id, c, escape, decide).0;
            && after.categories.Keys == db.categories.Keys
            && (forall k | k in db.categories && k != id :: after.categories[k] == db.categories[k])
            && (!ValidUpdate(c) || id !in db.categories ==> after == db)
            && (ValidUpdate(c) && id in db.categories ==>
                  after.categories[id]
                    == Apply(db.categories[id], UpdateParams(c, escape),
                             c.imageUrl.Some? && HttpPrefix(decide(Trim(c.imageUrl.value)))))
  {
  }

  /** `updateCategoria` as written: the `CASE` tests the escaped value the query receives. */
  function UpdateCategoria(db: Db, id: int, c: CategoryInput, escape: string -> string): (r: (Db, Response))
    ensures r.0.categories.Keys == db.categories.Keys
    // The sent image goes to `image_url` exactly when its escaped form looks like a URL.
    ensures ValidUpdate(c) && id in db.categories && c.imageUrl.Some? ==>
              var v := escape(Trim(c.imageUrl.value));
              && r.0.categories[id].imageUrl == (if HttpPrefix(v) then Some(v) else None)
              && r.0.categories[id].imageFilePath == (if HttpPrefix(v) then db.categories[id].imageFilePath else Some(v))
  {
    UpdatedCategory(db, id, c, escape, escape);
    UpdateWith(db, id, c, escape, escape)
  }

  /** The update with the routing decided on the value as sent, before escaping. */
  function UpdateCategoriaRouted(db: Db, id: int, c: CategoryInput, escape: string -> string): (r: (Db, Response))
    ensures r.0.categories.Keys == db.categories.Keys
    // The sent image goes to `image_url` exactly when the value as sent is an http(s) URL.
    ensures ValidUpdate(c) && id in db.categories && c.imageUrl.Some? ==>
              var v := escape(Trim(c.imageUrl.value));
              && r.0.categories[id].imageUrl == (if HttpPrefix(Trim(c.imageUrl.value)) then Some(v) else None)
              && r.0.categories[id].imageFilePath
                 == (if HttpPrefix(Trim(c.imageUrl.value)) then db.categories[id].imageFilePath else Some(v))
  {
    UpdatedCategory(db, id, c, escape, s => s);
    UpdateWith(db, id, c, escape, s => s)
  }

  /** Fields that are not sent keep their columns; an empty description is not a way to clear one. */
  lemma {:induction false} AbsentFieldsKept(db: Db, id: int, c: CategoryInput, escape: string -> string)
    requires ValidUpdate(c) && id in db.categories
    ensures var after := UpdateCategoria(db, id, c, escape).0.categories[id];
            var before := db.categories[id];
            && (c.name.None? ==> after.name == before.name)
            && (c.description.None? || c.description == Some("") ==> after.description == before.description)
            && (c.imageUrl.None? ==> after.imageUrl == before.imageUrl && after.imageFilePath == before.imageFilePath)
            && after.deletedAt == before.deletedAt
  {
    UpdatedCategory(db, id, c, escape, escape);
  }

  /** With the routing decided on the sent value, an http(s) URL lands in
      `image_url` and keeps the file path, and anything else becomes the file
      path with `image_url` cleared. */
  lemma {:induction false} RoutedImage(db: Db, id: int, c: CategoryInput, escape: string -> string)
    requires ValidUpdate(c) && id in db.categories && c.imageUrl.Some?
    ensures var after := UpdateCategoriaRouted(db, id, c, escape).0.categories[id];
            var sent := escape(Trim(c.imageUrl.value));
            && (HttpPrefix(Trim(c.imageUrl.value)) ==>
                  after.imageUrl == Some(sent) && after.imageFilePath == db.categories[id].imageFilePath)
            && (!HttpPrefix(Trim(c.imageUrl.value)) ==>
                  after.imageUrl.None? && after.imageFilePath == Some(sent))
  {
    UpdatedCategory(db, id, c, escape, s => s);
  }

  // ---------------------------------------------------------------------------
  // Delete
  // ---------------------------------------------------------------------------

  /** `deleteCategoria` for the route parameter `id` (`None` when empty): a
      hard `DELETE`, which touches nothing for an unknown id. */
  function DeleteCategoria(db: Db, id: Option<int>): (r: (Db, Response))
    ensures id.None? ==> r == (db, Response(400, ErrorMessage("ID de la categoría requerido")))
    ensures id.Some? ==>
              && r.1 == Response(200, Message("Categoría eliminada correctamente"))
              && r.0 == db.(categories := r.0.categories)
              && r.0.categories.Keys == db.categories.Keys - {id.value}
              && forall k | k in r.0.categories :: r.0.categories[k] == db.categories[k]
  {
    match id
    case None => (db, Response(400, ErrorMessage("ID de la categoría requerido")))
    case Some(n) => (db.(categories := db.categories - {n}), Response(200, Message("Categoría eliminada correctamente")))
  }

  /** Deleting twice is deleting once. */
  lemma {:induction false} DeleteCategoriaIdempotent(db: Db, id: Option<int>)
    ensures var (once, answer) := DeleteCategoria(db, id);
            DeleteCategoria(once, id) == (once, answer)
  {
    if id.Some? {
      var once := DeleteCategoria(db, id).0;
      assert once.categories - {id.value} == once.categories;
    }
  }

  // ---------------------------------------------------------------------------
  // express-validator's `escape`
  // ---------------------------------------------------------------------------

  /** `escape()` works character by character. */
  lemma {:induction false} EscapeCons(c: char, s: string)
    ensures ValidatorEscape([c] + s) == EscapeChar(c) + ValidatorEscape(s)
  {
    assert ([c] + s)[0] == c && ([c] + s)[1..] == s;
  }

  lemma {:induction false} EscapeAppend(a: string, b: string)
    ensures ValidatorEscape(a + b) == ValidatorEscape(a) + ValidatorEscape(b)
  {
    if a != [] {
      assert a == [a[0]] + a[1..];
      assert a + b == [a[0]] + (a[1..] + b);
      EscapeCons(a[0], a[1..] + b);
      EscapeCons(a[0], a[1..]);
      EscapeAppend(a[1..], b);
      var e, x, y := EscapeChar(a[0]), ValidatorEscape(a[1..]), ValidatorEscape(b);
      assert e + (x + y) == (e + x) + y;
    } else {
      assert a + b == b;
    }
  }

  /** Letters and ':' pass through `escape()` unchanged. */
  lemma {:induction false} EscapePlain(s: string)
    requires forall i | 0 <= i < |s| :: AsciiLetter(s[i]) || s[i] == ':'
    ensures ValidatorEscape(s) == s
  {
    if s != [] {
      EscapePlain(s[1..]);
    }
  }

  /** A string whose fifth and sixth characters are ':' and '&', or whose
      fifth to seventh are 's', ':' and '&' in any case, is no http(s) URL. */
  lemma {:induction false} NotHttpPrefix(e: string)
    requires |e| > 6
    requires (e[4] == ':' && e[5] == '&') || (LowerChar(e[4]) == 's' && e[5] == ':' && e[6] == '&')
    ensures !HttpPrefix(e)
  {
    var l := Lower(e);
    assert l[4] == LowerChar(e[4]) && l[5] == LowerChar(e[5]) && l[6] == LowerChar(e[6]);
    assert l[..7][4] == l[4] && l[..7][5] == l[5];
    if |l| >= 8 {
      assert l[..8][4] == l[4] && l[..8][6] == l[6];
    }
    assert "http://"[4] == ':' && "http://"[5] == '/';
    assert "https://"[4] == 's' && "https://"[6] == '/';
  }

  /** The characters before the slashes of an http(s) URL are letters and ':'. */
  lemma {:induction false} HttpHead(v: string, k: nat)
    requires k == 5 || k == 6
    requires |v| >= k + 2 && Lower(v)[..k + 2] == (if k == 5 then "http://" else "https://")
    ensures forall i | 0 <= i < k :: AsciiLetter(v[i]) || v[i] == ':'
    ensures v[k] == '/'
    ensures k == 5 ==> v[4] == ':'
    ensures k == 6 ==> LowerChar(v[4]) == 's' && v[5] == ':'
  {
    forall i | 0 <= i < k + 2 ensures LowerChar(v[i]) == Lower(v)[..k + 2][i] {
      assert Lower(v)[..k + 2][i] == Lower(v)[i];
    }
  }

  /** Escaping a string whose first `k` characters are letters or ':' and whose
      next one is '/' keeps those `k` and writes '&' next. */
  lemma {:induction false} EscapeAtSlash(v: string, k: nat)
    requires k < |v| && v[k] == '/'
    requires forall i | 0 <= i < k :: AsciiLetter(v[i]) || v[i] == ':'
    ensures |ValidatorEscape(v)| > k + 1
    ensures ValidatorEscape(v)[..k] == v[..k] && ValidatorEscape(v)[k] == '&'
  {
    var head, tail := v[..k], v[k + 1..];
    assert v == head + ([v[k]] + tail);
    assert forall i | 0 <= i < |head| :: head[i] == v[i];
    EscapePlain(head);
    EscapeCons('/', tail);
    EscapeAppend(head, [v[k]] + tail);
    SlashEntity();
    var rest := EscapeChar('/') + ValidatorEscape(tail);
    assert ValidatorEscape(v) == head + rest;
    PrefixThenAt(head, rest);
  }

  /** `escape()` writes `&#x2F;` for a slash. */
  lemma {:induction false} SlashEntity()
    ensures EscapeChar('/') == "&#x2F;" && EscapeChar('/')[0] == '&'
  {
  }

  /** Reading `a + b` at and before `|a|`. */
  lemma {:induction false} PrefixThenAt(a: string, b: string)
    requires b != []
    ensures (a + b)[..|a|] == a && (a + b)[|a|] == b[0]
  {
  }

  /** Escaping turns the slashes of an http(s) URL into `&#x2F;`, so the escaped value never looks like one. */
  lemma {:induction false} EscapedUrlNotHttp(v: string)
    requires HttpPrefix(v)
    ensures !HttpPrefix(ValidatorEscape(v))
  {
    var e := ValidatorEscape(v);
    if StartsWith(Lower(v), "http://") {
      HttpHead(v, 5);
      EscapeAtSlash(v, 5);
      assert e[4] == e[..5][4] == v[4];
    } else {
      HttpHead(v, 6);
      EscapeAtSlash(v, 6);
      assert e[4] == e[..6][4] == v[4];
      assert e[5] == e[..6][5] == v[5];
    }
    NotHttpPrefix(e);
  }

  /** As written, an http(s) image sent to the update is escaped before the
      `CASE` sees it, so it is stored as the file path and `image_url` is cleared. */
  lemma {:induction false} UpdateNeverRoutesUrls(db: Db, id: int, c: CategoryInput)
    requires ValidUpdate(c) && id in db.categories && c.imageUrl.Some?
    requires HttpPrefix(Trim(c.imageUrl.value))
    ensures var after := UpdateCategoria(db, id, c, ValidatorEscape).0.categories[id];
            after.imageUrl.None? && after.imageFilePath == Some(ValidatorEscape(Trim(c.imageUrl.value)))
  {
    EscapedUrlNotHttp(Trim(c.imageUrl.value));
    UpdatedCategory(db, id, c, ValidatorEscape, ValidatorEscape);
  }

  /** A concrete instance: a category's new https image ends up as an escaped file path. */
  lemma {:induction false} UpdateHttpsImageExample()
    ensures var db := Db(map[1 := Category("Fundas", Some("https://a/old"), None, None, None)],
                         map[], map[], [], Serials(1, 0, 0));
            var c := CategoryInput(None, Some("https://a/x"), None);
            var after := UpdateCategoria(db, 1, c, ValidatorEscape).0.categories[1];
            && after.imageUrl.None?
            && after.imageFilePath == Some(ValidatorEscape("https://a/x"))
  {
    ExampleUntrimmed();
    assert "https://a/x"[..8] == "https://";
    HttpsAccepted("https://a/x");
    var c := CategoryInput(None, Some("https://a/x"), None);
    var db := Db(map[1 := Category("Fundas", Some("https://a/old"), None, None, None)], map[], map[], [], Serials(1, 0, 0));
    UpdateNeverRoutesUrls(db, 1, c);
  }

  /** A lower-case `https://` reference passes both the scheme test and the image check. */
  lemma {:induction false} HttpsAccepted(v: string)
    requires StartsWith(v, "https://")
    ensures HttpPrefix(v) && ImageAccepted(v)
  {
    LowerPrefix(v, "https://");
  }

  lemma {:induction false} ExampleUntrimmed()
    ensures Trim("https://a/x") == "https://a/x"
  {
    var v := "https://a/x";
    assert !HasSpace(v) by {
      forall i | 0 <= i < |v| ensures !IsSpace(v[i]) {
      }
    }
  }

  // ---------------------------------------------------------------------------
  // Listing (`getCategorias`)
  // ---------------------------------------------------------------------------

  /** A row of the listing: `COALESCE(image_url, image_file_path)` as the image. */
  datatype CategoryView = CategoryView(id: int, name: string, image: Option<string>, description: Option<string>)

  function ViewOf(db: Db, id: int): CategoryView
    requires id in db.categories
  {
    var c := db.categories[id];
    CategoryView(id, c.name, Coalesce(c.imageUrl, c.imageFilePath), c.description)
  }

  /** Code-point order on strings. */
  predicate StrLe(a: string, b: string)
    decreases |a|
  {
    a == [] || (b != [] && (a[0] < b[0] || (a[0] == b[0] && StrLe(a[1..], b[1..]))))
  }

  lemma {:induction false} StrLeTotal(a: string, b: string)
    ensures StrLe(a, b) || StrLe(b, a)
    decreases |a|
  {
    if a != [] && b != [] && a[0] == b[0] {
      StrLeTotal(a[1..], b[1..]);
    }
  }

  predicate SortedByName(r: seq<CategoryView>) {
    forall i | 0 <= i < |r| - 1 :: StrLe(r[i].name, r[i + 1].name)
  }

  function Insert(x: CategoryView, r: seq<CategoryView>): (out: seq<CategoryView>)
    requires SortedByName(r)
    ensures SortedByName(out)
    ensures multiset(out) == multiset(r) + multiset{x}
    ensures |out| == |r| + 1 && (out[0] == x || (r != [] && out[0] == r[0]))
  {
    if r == [] then [x]
    else if StrLe(x.name, r[0].name) then [x] + r
    else
      StrLeTotal(x.name, r[0].name);
      var rest := Insert(x, r[1..]);
      assert r == [r[0]] + r[1..];
      [r[0]] + rest
  }

  /** `ORDER BY name ASC`. */
  function SortByName(s: seq<CategoryView>): (r: seq<CategoryView>)
    ensures SortedByName(r)
    ensures multiset(r) == multiset(s)
  {
    if s == [] then []
    else
      assert s == [s[0]] + s[1..];
      Insert(s[0], SortByName(s[1..]))
  }

  /** `getCategorias`: every category, soft-deleted ones included, by name. */
  function GetCategorias(db: Db): (rows: seq<CategoryView>)
    ensures SortedByName(rows)
    ensures forall i | 0 <= i < |rows| :: rows[i].id in db.categories && rows[i] == ViewOf(db, rows[i].id)
  {
    var ids := KeysDescending(db.categories.Keys, db.serials.category);
    var views := seq(|ids|, i requires 0 <= i < |ids| => ViewOf(db, ids[i]));
    var rows := SortByName(views);
    forall i | 0 <= i < |rows| ensures rows[i].id in db.categories && rows[i] == ViewOf(db, rows[i].id) {
      assert rows[i] in multiset(rows);
      assert rows[i] in views;
      var j :| 0 <= j < |views| && views[j] == rows[i];
      assert views[j] == ViewOf(db, ids[j]);
    }
    rows
  }

  /** Under the serial invariant every category is listed, once. */
  lemma {:induction false} GetCategoriasComplete(db: Db, id: int)
    requires Keyed(db) && id in db.categories
    ensures multiset(GetCategorias(db))[ViewOf(db, id)] == 1
  {
    var ids := KeysDescending(db.categories.Keys, db.serials.category);
    var views := seq(|ids|, i requires 0 <= i < |ids| => ViewOf(db, ids[i]));
    assert id in ids;
    var k :| 0 <= k < |ids| && ids[k] == id;
    CountOnce(views, k);
  }

  /** A sequence of rows with distinct ids holds each of them once. */
  lemma {:induction false} CountOnce(views: seq<CategoryView>, k: nat)
    requires k < |views|
    requires forall i, j | 0 <= i < j < |views| :: views[i].id != views[j].id
    ensures multiset(views)[views[k]] == 1
  {
    if k == 0 {
      assert views == [views[0]] + views[1..];
      assert views[0] !in views[1..] by {
        forall i | 0 <= i < |views[1..]| ensures views[1..][i] != views[0] {
          assert views[1..][i].id == views[i + 1].id;
        }
      }
    } else {
      assert views == [views[0]] + views[1..];
      CountOnce(views[1..], k - 1);
      assert views[1..][k - 1] == views[k];
    }
  }
}
