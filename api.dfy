/** The FastAPI handlers: user creation and login against the user table, image details from the
    metadata table, image bytes and the image listing from the bucket. The database, the bucket and
    bcrypt are oracles passed in as values and functions. */
module Api {
  import opened Py
  import opened PyStr

  /** What a handler answers: a body, an `HTTPException` that left the handler, or any other
      exception that left it (which the server turns into status 500 as well). */
  datatype Response<+T> = Ok(body: T) | HttpError(status: int) | Unhandled

  /** What left the `try` block of a handler. */
  datatype Raise = HttpException(status: int) | OtherError
  datatype Attempt<+T> = Done(value: T) | Threw(error: Raise)

  /** `except Exception as e: raise HTTPException(status_code=500, ...)`: an `HTTPException` is an
      `Exception`, so whatever the `try` block raised, the client gets 500. */
  function CatchAll<T>(a: Attempt<T>): (r: Response<T>)
    ensures r.Ok? <==> a.Done?
    ensures a.Done? ==> r.body == a.value
    ensures a.Threw? ==> r == HttpError(500)
  {
    match a
    case Done(v) => Ok(v)
    case Threw(_) => HttpError(500)
  }

  // ---------------------------------------------------------------- users

  datatype UserCreate = UserCreate(firstName: string, lastName: string, username: string, password: string)
  datatype UserLogin = UserLogin(username: string, password: string)

  /** A row of `USER_TEST (FIRSTNAME, LASTNAME, USERNAME, PASSWORD)`. */
  datatype UserRow = UserRow(firstName: string, lastName: string, username: string, password: string)

  datatype LoginBody = LoginBody(message: string, username: string)

  const USER_CREATED := "User created successfully"
  const LOGIN_SUCCESSFUL := "Login successful"

  /** The warehouse calls one request makes: whether the connection opened, the statement ran and
      the commit went through. */
  datatype DbCalls = DbCalls(connectOk: bool, executeOk: bool, commitOk: bool)

  /** `create_user(user)`, with `hash` standing for `bcrypt.hashpw` under a fresh salt. The result is
      the response and the committed user table. `autocommit` is the connection's mode: the connect
      passes none, so Snowflake's default, on, applies and the insert is committed by itself; off, the
      row waits for `commit()`. */
  function CreateUser(user: UserCreate, hash: string -> string, calls: DbCalls, users: seq<UserRow>, autocommit: bool)
    : (r: (Response<string>, seq<UserRow>))
    ensures r.0.Ok? <==> calls.connectOk && calls.executeOk && calls.commitOk
    ensures r.0.Ok? ==> r.0.body == USER_CREATED
    ensures r.1 == users + [UserRow(user.firstName, user.lastName, user.username, hash(user.password))] <==>
              calls.connectOk && calls.executeOk && (autocommit || calls.commitOk)
    ensures r.1 == users || r.1 == users + [UserRow(user.firstName, user.lastName, user.username, hash(user.password))]
    ensures r.0.HttpError? ==> r.0.status == 500
    ensures r.0.Unhandled? <==> !calls.connectOk
  {
    if !calls.connectOk then (Unhandled, users)
    else
      var hashed := hash(user.password);
      var row := UserRow(user.firstName, user.lastName, user.username, hashed);
      if !calls.executeOk then (CatchAll<string>(Threw(OtherError)), users)
      else if !calls.commitOk then (CatchAll<string>(Threw(OtherError)), if autocommit then users + [row] else users)
      else (CatchAll(Done(USER_CREATED)), users + [row])
  }

  /** Under the default autocommit a failing `commit()` answers 500, yet the user is in the table. */
  lemma CreatedDespite500(user: UserCreate, hash: string -> string, users: seq<UserRow>)
    ensures CreateUser(user, hash, DbCalls(true, true, false), users, true)
         == (HttpError(500), users + [UserRow(user.firstName, user.lastName, user.username, hash(user.password))])
  {
  }

  /** The rows a `WHERE` clause selects, in table order. */
  function Where<T>(rows: seq<T>, matches: T -> bool): (r: seq<T>)
    ensures |r| <= |rows|
  {
    if rows == [] then []
    else (if matches(rows[0]) then [rows[0]] else []) + Where(rows[1..], matches)
  }

  /** The selected rows are exactly the matching rows of the table. */
  lemma {:induction false} WhereSpec<T>(rows: seq<T>, matches: T -> bool)
    ensures forall k :: 0 <= k < |Where(rows, matches)| ==>
              Where(rows, matches)[k] in rows && matches(Where(rows, matches)[k])
    ensures forall x :: x in rows && matches(x) ==> x in Where(rows, matches)
    ensures Where(rows, matches) == [] <==> forall k :: 0 <= k < |rows| ==> !matches(rows[k])
  {
    if rows != [] {
      WhereSpec(rows[1..], matches);
      assert rows == [rows[0]] + rows[1..];
    }
  }

  /** Selecting from a table with rows appended selects the old matches, then the new ones. */
  lemma {:induction false} WhereAppend<T>(a: seq<T>, b: seq<T>, matches: T -> bool)
    ensures Where(a + b, matches) == Where(a, matches) + Where(b, matches)
  {
    if a == [] {
      assert a + b == b;
    } else {
      assert (a + b)[1..] == a[1..] + b;
      WhereAppend(a[1..], b, matches);
      var head := if matches(a[0]) then [a[0]] else [];
      assert Where(a + b, matches) == head + (Where(a[1..], matches) + Where(b, matches));
    }
  }

  /** `fetchone()` after a `SELECT` without `ORDER BY`: the warehouse may answer any selected row,
      and `pick` stands for its choice. */
  function FetchOne<T>(rows: seq<T>, matches: T -> bool, pick: nat): Option<T>
  {
    var selected := Where(rows, matches);
    if selected == [] then None else Some(selected[pick % |selected|])
  }

  /** `fetchone` answers some matching row, none exactly when no row matches, and every matching row
      is one it may answer. */
  lemma FetchOneSpec<T>(rows: seq<T>, matches: T -> bool, pick: nat)
    ensures FetchOne(rows, matches, pick).Some? ==>
              FetchOne(rows, matches, pick).value in rows && matches(FetchOne(rows, matches, pick).value)
    ensures FetchOne(rows, matches, pick).None? <==> forall k :: 0 <= k < |rows| ==> !matches(rows[k])
  {
    WhereSpec(rows, matches);
  }

  /** Every matching row is the answer for some choice of the warehouse. */
  lemma FetchOneAny<T>(rows: seq<T>, matches: T -> bool, x: T) returns (pick: nat)
    requires x in rows && matches(x)
    ensures FetchOne(rows, matches, pick) == Some(x)
  {
    WhereSpec(rows, matches);
    var i :| 0 <= i < |Where(rows, matches)| && Where(rows, matches)[i] == x;
    FetchOneAt(rows, matches, i);
    pick := i;
  }

  /** Choice `i` below the number of selected rows answers the `i`-th of them. */
  lemma FetchOneAt<T>(rows: seq<T>, matches: T -> bool, i: nat)
    requires i < |Where(rows, matches)|
    ensures FetchOne(rows, matches, i) == Some(Where(rows, matches)[i])
  {
    assert i % |Where(rows, matches)| == i;
  }

  /** `cursor.execute("SELECT ... WHERE username = %s")` then `fetchone()`. */
  function FindUser(users: seq<UserRow>, username: string, pick: nat): (r: Option<UserRow>)
    ensures r.Some? ==> r.value in users && r.value.username == username
    ensures r.None? <==> forall k :: 0 <= k < |users| ==> users[k].username != username
  {
    FetchOneSpec(users, (row: UserRow) => row.username == username, pick);
    FetchOne(users, (row: UserRow) => row.username == username, pick)
  }

  /** The password check on the row `fetchone` answered. */
  function Verify(creds: UserLogin, row: UserRow, checkpw: (string, string) -> Option<bool>): Attempt<LoginBody>
  {
    match checkpw(creds.password, row.password)
    case None => Threw(OtherError)
    case Some(ok) =>
      if ok then Done(LoginBody(LOGIN_SUCCESSFUL, row.username)) else Threw(HttpException(401))
  }

  /** `login(user)`, with `checkpw(password, stored)` standing for `bcrypt.checkpw` (`None`: it raised
      on a malformed stored hash) and `pick` for the row `fetchone` answers. */
  function Login(creds: UserLogin, users: seq<UserRow>, checkpw: (string, string) -> Option<bool>, calls: DbCalls, pick: nat)
    : Response<LoginBody>
  {
    if !calls.connectOk then Unhandled
    else if !calls.executeOk then CatchAll<LoginBody>(Threw(OtherError))
    else
      var attempt: Attempt<LoginBody> :=
        match FindUser(users, creds.username, pick)
        case None => Threw(HttpException(404))
        case Some(row) => Verify(creds, row, checkpw);
      CatchAll(attempt)
  }

  /** Login succeeds exactly when a row with that username is found and the password check on it
      passes; it returns the stored username, which is the one asked for. The 401 and the 404 never
      reach the client: every failure after connecting is 500. */
  lemma LoginSpec(creds: UserLogin, users: seq<UserRow>, checkpw: (string, string) -> Option<bool>, calls: DbCalls, pick: nat)
    ensures var r := Login(creds, users, checkpw, calls, pick);
      && (r.Ok? <==> calls.connectOk && calls.executeOk && FindUser(users, creds.username, pick).Some?
                     && checkpw(creds.password, FindUser(users, creds.username, pick).value.password) == Some(true))
      && (r.Ok? ==> r.body == LoginBody(LOGIN_SUCCESSFUL, creds.username))
      && (r.HttpError? ==> r.status == 500)
      && (r.Unhandled? <==> !calls.connectOk)
  {
  }

  /** A wrong password gets 500, not 401; an unknown user gets 500, not 404. */
  lemma LoginFailuresAre500(creds: UserLogin, users: seq<UserRow>, checkpw: (string, string) -> Option<bool>, pick: nat)
    requires FindUser(users, creds.username, pick).None?
          || checkpw(creds.password, FindUser(users, creds.username, pick).value.password) == Some(false)
    ensures Login(creds, users, checkpw, DbCalls(true, true, true), pick) == HttpError(500)
  {
  }

  /** A user created with a fresh username can then log in with the same password, whichever row the
      warehouse answers, provided the password check accepts the hash of that password. */
  lemma CreateThenLogin(user: UserCreate, hash: string -> string, users: seq<UserRow>, autocommit: bool,
                        checkpw: (string, string) -> Option<bool>, pick: nat)
    requires forall k :: 0 <= k < |users| ==> users[k].username != user.username
    requires checkpw(user.password, hash(user.password)) == Some(true)
    ensures var (resp, users') := CreateUser(user, hash, DbCalls(true, true, true), users, autocommit);
      && resp == Ok(USER_CREATED)
      && Login(UserLogin(user.username, user.password), users', checkpw, DbCalls(true, true, true), pick)
         == Ok(LoginBody(LOGIN_SUCCESSFUL, user.username))
  {
    var row := UserRow(user.firstName, user.lastName, user.username, hash(user.password));
    var matches := (r: UserRow) => r.username == user.username;
    WhereAppend(users, [row], matches);
    FetchOneSpec(users, matches, pick);
    assert Where([row], matches) == [row];
  }

  /** Nothing stops a second row with an existing username, and the `SELECT` has no `ORDER BY`: after
      it, login may be checked against the new row's hash, and every row it could be checked against
      before is still one it may be checked against. */
  lemma DuplicateUserAmbiguous(user: UserCreate, hash: string -> string, users: seq<UserRow>, autocommit: bool,
                               creds: UserLogin, checkpw: (string, string) -> Option<bool>, pick: nat)
    requires creds.username == user.username
    ensures var users' := CreateUser(user, hash, DbCalls(true, true, true), users, autocommit).1;
      var row := UserRow(user.firstName, user.lastName, user.username, hash(user.password));
      && (exists pick' :: FindUser(users', creds.username, pick') == Some(row))
      && (exists pick' :: Login(creds, users', checkpw, DbCalls(true, true, true), pick') == CatchAll(Verify(creds, row, checkpw)))
      && (FindUser(users, creds.username, pick).Some? ==>
            exists pick' :: FindUser(users', creds.username, pick') == FindUser(users, creds.username, pick))
  {
    var row := UserRow(user.firstName, user.lastName, user.username, hash(user.password));
    var users' := users + [row];
    var matches := (r: UserRow) => r.username == user.username;
    var p := FetchOneAny(users', matches, row);
    assert FindUser(users', creds.username, p) == Some(row);
    assert Login(creds, users', checkpw, DbCalls(true, true, true), p) == CatchAll(Verify(creds, row, checkpw));
    if FindUser(users, creds.username, pick).Some? {
      var before := FindUser(users, creds.username, pick).value;
      var q := FetchOneAny(users', matches, before);
      assert FindUser(users', creds.username, q) == Some(before);
    }
  }

  // ---------------------------------------------------------------- image details

  /** A row of the `test` table: `image_key`, `title`, `brief`. */
  datatype ImageRow = ImageRow(imageKey: string, title: string, brief: string)
  datatype ImageDetails = ImageDetails(title: string, brief: string)

  /** `image_key.split('/')[-1].rsplit('.', 1)[0]` */
  function LookupKey(imageKey: string): string
  {
    RSplitOnce(Last(Split(imageKey, "/")), '.')[0]
  }

  /** The lookup key is the last `/`-segment, cut at its last `.` when it has one; it never holds `/`. */
  lemma LookupKeySpec(imageKey: string)
    ensures var seg := Last(Split(imageKey, "/"));
      && '/' !in seg && |seg| <= |imageKey| && seg == imageKey[|imageKey| - |seg|..]
      && (imageKey == seg || imageKey[|imageKey| - |seg| - 1] == '/')
      && ('.' !in seg ==> LookupKey(imageKey) == seg)
      && ('.' in seg ==> seg[..|LookupKey(imageKey)|] == LookupKey(imageKey)
                         && seg[|LookupKey(imageKey)|] == '.'
                         && '.' !in seg[|LookupKey(imageKey)| + 1..])
    ensures '/' !in LookupKey(imageKey)
  {
    var seg := Last(Split(imageKey, "/"));
    SplitCharLast(imageKey, '/');
    RSplitOnceHead(seg, '.');
    var k := LookupKey(imageKey);
    forall m | 0 <= m < |k| ensures k[m] != '/' {
      assert k[m] == seg[m];
    }
  }

  /** "dir/name.png" is looked up as "name", and a dotted name keeps its inner dots. */
  lemma LookupKeyOf(dir: string, name: string, ext: string)
    requires '/' !in name && '/' !in ext && '.' !in ext
    ensures LookupKey(dir + "/" + name + "." + ext) == name
  {
    var seg := name + "." + ext;
    assert '/' !in seg;
    assert dir + "/" + name + "." + ext == dir + "/" + seg;
    SplitCharSnoc(dir, '/', seg);
    RFindBefore(name, '.', ext);
    assert seg[..|name|] == name;
  }

  /** `cursor.execute("SELECT title, brief FROM test WHERE image_key = %s")` then `fetchone()`: a row
      whose `image_key` matches, chosen by `pick` when several do. */
  function FindImage(images: seq<ImageRow>, key: string, pick: nat): (r: Option<ImageRow>)
    ensures r.Some? ==> r.value in images && r.value.imageKey == key
    ensures r.None? <==> forall k :: 0 <= k < |images| ==> images[k].imageKey != key
  {
    FetchOneSpec(images, (row: ImageRow) => row.imageKey == key, pick);
    FetchOne(images, (row: ImageRow) => row.imageKey == key, pick)
  }

  /** `get_image_details(image_key)`. The connection is opened inside the `try`; when it fails, the
      `finally` block's `cursor.close()` raises on the unbound name, so that error leaves the handler. */
  function GetImageDetails(imageKey: string, images: seq<ImageRow>, calls: DbCalls, pick: nat): (r: Response<ImageDetails>)
    ensures r.Ok? <==> calls.connectOk && calls.executeOk && FindImage(images, LookupKey(imageKey), pick).Some?
    ensures r.Ok? ==> var row := FindImage(images, LookupKey(imageKey), pick).value;
      r.body == ImageDetails(row.title, row.brief)
    ensures r.HttpError? ==> r.status == 500
    ensures r.Unhandled? <==> !calls.connectOk
  {
    if !calls.connectOk then Unhandled
    else
      var baseName := LookupKey(imageKey);
      var attempt: Attempt<ImageDetails> :=
        if !calls.executeOk then Threw(OtherError)
        else
          match FindImage(images, baseName, pick)
          case Some(row) => Done(ImageDetails(row.title, row.brief))
          case None => Threw(HttpException(404));
      CatchAll(attempt)
  }

  /** A missing row is reported as 500, never as 404. */
  lemma MissingDetailsAre500(imageKey: string, images: seq<ImageRow>, pick: nat)
    requires forall k :: 0 <= k < |images| ==> images[k].imageKey != LookupKey(imageKey)
    ensures GetImageDetails(imageKey, images, DbCalls(true, true, true), pick) == HttpError(500)
  {
  }

  // ---------------------------------------------------------------- bucket

  /** `fetch_image(image_key)`. `clientOk` is false when `get_s3_client()`, called before the `try`,
      raises; `bucket` is the bucket's objects (`None`: the S3 call failed for a reason other than a
      missing key) and `toPngBase64` the PIL re-encoding (`None`: it raised). */
  function FetchImage(clientOk: bool, imageKey: string, bucket: Option<map<string, seq<bv8>>>,
                      toPngBase64: seq<bv8> -> Option<string>): (r: Response<string>)
    ensures r.Ok? <==> clientOk && bucket.Some? && imageKey in bucket.value && toPngBase64(bucket.value[imageKey]).Some?
    ensures r.Ok? ==> r.body == toPngBase64(bucket.value[imageKey]).value
    ensures r == HttpError(404) <==> clientOk && bucket.Some? && imageKey !in bucket.value
    ensures r.HttpError? ==> r.status == 404 || r.status == 500
    ensures r.Unhandled? <==> !clientOk
  {
    if !clientOk then Unhandled
    else
      match bucket
      case None => HttpError(500)
      case Some(objects) =>
        if imageKey !in objects then HttpError(404)
        else
          match toPngBase64(objects[imageKey])
          case None => HttpError(500)
          case Some(b64) => Ok(b64)
  }

  const IMAGE_PREFIX := "test/"
  const MAX_KEYS := 1000

  /** `key.endswith(('.png', '.jpg', '.jpeg'))` */
  predicate IsImageKey(key: string)
  {
    EndsWith(key, ".png") || EndsWith(key, ".jpg") || EndsWith(key, ".jpeg")
  }

  /** The list comprehension over `response['Contents']`. */
  function FilterImages(keys: seq<string>): (r: seq<string>)
    ensures |r| <= |keys|
    ensures forall k :: 0 <= k < |r| ==> IsImageKey(r[k])
  {
    if keys == [] then []
    else (if IsImageKey(keys[0]) then [keys[0]] else []) + FilterImages(keys[1..])
  }

  /** The filter keeps exactly the image keys. */
  lemma {:induction false} FilterImagesMembers(keys: seq<string>, key: string)
    ensures key in FilterImages(keys) <==> key in keys && IsImageKey(key)
  {
    if keys != [] {
      FilterImagesMembers(keys[1..], key);
      assert keys == [keys[0]] + keys[1..];
    }
  }

  /** The filter keeps listing order: filtering a concatenation concatenates the filtered parts. */
  lemma {:induction false} FilterImagesAppend(a: seq<string>, b: seq<string>)
    ensures FilterImages(a + b) == FilterImages(a) + FilterImages(b)
  {
    if a == [] {
      assert a + b == b;
    } else {
      assert (a + b)[1..] == a[1..] + b;
      FilterImagesAppend(a[1..], b);
      var head := if IsImageKey(a[0]) then [a[0]] else [];
      assert FilterImages(a + b) == head + (FilterImages(a[1..]) + FilterImages(b));
    }
  }

  /** The keys `list_objects_v2(Prefix="test/")` returns: in listing order, those under the prefix,
      at most one page of 1000. */
  function ListedKeys(bucketKeys: seq<string>): (r: seq<string>)
    ensures |r| <= MAX_KEYS
    ensures forall k :: 0 <= k < |r| ==> IMAGE_PREFIX <= r[k]
  {
    var under := UnderPrefix(bucketKeys);
    if |under| <= MAX_KEYS then under else under[..MAX_KEYS]
  }

  function UnderPrefix(keys: seq<string>): (r: seq<string>)
    ensures forall k :: 0 <= k < |r| ==> IMAGE_PREFIX <= r[k] && r[k] in keys
    ensures forall key :: key in keys && IMAGE_PREFIX <= key ==> key in r
  {
    if keys == [] then []
    else (if IMAGE_PREFIX <= keys[0] then [keys[0]] else []) + UnderPrefix(keys[1..])
  }

  /** `list_images()`, with `clientOk` false when `get_s3_client()`, called before the `try`, raises,
      and `bucketKeys` the bucket's keys in listing order (`None`: the call failed). */
  function ListImages(clientOk: bool, bucketKeys: Option<seq<string>>): (r: Response<seq<string>>)
    ensures r.Ok? <==> clientOk && bucketKeys.Some? && ListedKeys(bucketKeys.value) != []
    ensures r.Ok? ==> r.body == FilterImages(ListedKeys(bucketKeys.value))
    ensures r.HttpError? ==> r.status == 500
    ensures r.Unhandled? <==> !clientOk
  {
    if !clientOk then Unhandled
    else
      var attempt: Attempt<seq<string>> :=
        match bucketKeys
        case None => Threw(OtherError)
        case Some(keys) =>
          var contents := ListedKeys(keys);
          if contents == [] then Threw(HttpException(404)) else Done(FilterImages(contents));
      CatchAll(attempt)
  }

  /** Every listed file is an image key under "test/", and every image key of the listed page is
      listed; an empty folder gets 500. */
  lemma ListImagesSpec(bucketKeys: seq<string>)
    ensures ListImages(true, Some(bucketKeys)).Ok? ==>
      forall key :: key in ListImages(true, Some(bucketKeys)).body <==>
        key in ListedKeys(bucketKeys) && IsImageKey(key)
    ensures UnderPrefix(bucketKeys) == [] ==> ListImages(true, Some(bucketKeys)) == HttpError(500)
  {
    forall key {
      FilterImagesMembers(ListedKeys(bucketKeys), key);
    }
  }

  /** At most one page: all image keys under the prefix are listed when there are at most 1000 keys. */
  lemma ListImagesComplete(bucketKeys: seq<string>, key: string)
    requires |UnderPrefix(bucketKeys)| <= MAX_KEYS
    requires key in bucketKeys && IMAGE_PREFIX <= key && IsImageKey(key)
    ensures ListImages(true, Some(bucketKeys)).Ok? && key in ListImages(true, Some(bucketKeys)).body
  {
    FilterImagesMembers(ListedKeys(bucketKeys), key);
  }
}
