/**
 * The decision logic of three HTTP handlers: login, recipient registration
 * and the /ai-match route. Database results and the password-hash comparison
 * are inputs; each handler's outcome is a status code and a JSON body.
 */
module Routes {
  import opened Wrappers
  import Matching

  /** The outcome of one SQL query: the rows it returned, or a thrown database error. */
  datatype Query<T> = Rows(rows: seq<T>) | DbError

  /** A row of the users table; `passwordHash` is the stored bcrypt digest. */
  datatype User = User(username: string, email: string, passwordHash: string)

  /** A JSON body: `{ message }`, `{ error }`, or the array of matches. */
  datatype Body = Message(text: string) | Error(text: string) | MatchList(matches: seq<Matching.Match>)

  datatype Response = Response(status: nat, body: Body)

  /** JavaScript truthiness of a string field of the request body: present and non-empty. */
  predicate Present(field: Option<string>) {
    field.Some? && field.value != []
  }

  /** The registration guard: some required field is absent or empty. */
  predicate MissingRecipientField(name: Option<string>, email: Option<string>, phone: Option<string>, address: Option<string>) {
    !Present(name) || !Present(email) || !Present(phone) || !Present(address)
  }

  /**
   * POST /login. `users` is the result of selecting the users with the given
   * email; `verify(password, digest)` is the hash comparison.
   */
  function Login(password: string, users: Query<User>, verify: (string, string) -> bool): (r: Response)
    ensures r.status in {200, 400, 500}
    ensures users.DbError? <==> r == Response(500, Error("Database error"))
    ensures users == Rows([]) <==> r == Response(400, Error("User not found"))
    ensures users.Rows? && users.rows != [] && !verify(password, users.rows[0].passwordHash)
      <==> r == Response(400, Error("Invalid password"))
    ensures r.status == 200 <==> users.Rows? && users.rows != [] && verify(password, users.rows[0].passwordHash)
    ensures r.status == 200 ==> r.body == Message("Welcome " + users.rows[0].username + "!")
  {
    match users
    case DbError => Response(500, Error("Database error"))
    case Rows(rows) =>
      if |rows| == 0 then Response(400, Error("User not found"))
      else
        var user := rows[0];
        if !verify(password, user.passwordHash) then Response(400, Error("Invalid password"))
        else Response(200, Message("Welcome " + user.username + "!"))
  }

  /**
   * POST /recipients. `insertOk` says whether the INSERT succeeded; it is only
   * consulted once the guard has passed.
   */
  function RegisterRecipient(name: Option<string>, email: Option<string>, phone: Option<string>, address: Option<string>,
                             insertOk: bool): (r: Response)
    ensures r.status in {201, 400, 500}
    ensures r.status == 400 <==> MissingRecipientField(name, email, phone, address)
    ensures r.status == 201 <==> !MissingRecipientField(name, email, phone, address) && insertOk
    ensures r.status == 201 ==> r.body == Message("Recipient " + name.value + " registered successfully!")
    ensures r.status == 400 ==> r.body == Error("All fields are required")
    ensures r.status == 500 ==> r.body == Error("Database error while registering recipient")
  {
    if MissingRecipientField(name, email, phone, address) then
      Response(400, Error("All fields are required"))
    else if insertOk then
      Response(201, Message("Recipient " + name.value + " registered successfully!"))
    else
      Response(500, Error("Database error while registering recipient"))
  }

  /** The /ai-match guard: no foods or no recipients. */
  predicate NothingToMatch(foods: seq<Matching.Food>, recipients: seq<Matching.Recipient>) {
    |foods| == 0 || |recipients| == 0
  }

  /**
   * GET /ai-match: read both tables, refuse empty input with 400, otherwise
   * run the matching routine and return its result.
   */
  method AiMatch(foodRows: Query<Matching.Food>, recipientRows: Query<Matching.Recipient>, oracle: Matching.Oracle)
    returns (r: Response)
    ensures r.status in {200, 400, 500}
    ensures r.status == 500 <==> foodRows.DbError? || recipientRows.DbError?
    ensures r.status == 500 ==> r.body == Error("AI matching failed")
    ensures r.status == 400 <==> foodRows.Rows? && recipientRows.Rows? && NothingToMatch(foodRows.rows, recipientRows.rows)
    ensures r.status == 400 ==> r.body == Error("No foods or recipients available")
    ensures r.status == 200 ==> r.body == MatchList(Matching.Matches(foodRows.rows, recipientRows.rows, oracle))
  {
    if foodRows.DbError? || recipientRows.DbError? {
      return Response(500, Error("AI matching failed"));
    }
    var foods, recipients := foodRows.rows, recipientRows.rows;
    if NothingToMatch(foods, recipients) {
      return Response(400, Error("No foods or recipients available"));
    }
    var matches := Matching.ComputeMatches(foods, recipients, oracle);
    return Response(200, MatchList(matches));
  }

  /** The two 400 answers of login are told apart by their messages only. */
  lemma LoginFailuresDistinct(password: string, users: Query<User>, verify: (string, string) -> bool)
    requires Login(password, users, verify).status == 400
    ensures Login(password, users, verify).body == Error("User not found")
      <==> users == Rows([])
    ensures Login(password, users, verify).body == Error("Invalid password")
      <==> users.Rows? && users.rows != [] && !verify(password, users.rows[0].passwordHash)
  {
  }

  /** Only the first row returned is checked: later rows with the same email never matter. */
  lemma LoginUsesFirstRow(password: string, user: User, rest1: seq<User>, rest2: seq<User>, verify: (string, string) -> bool)
    ensures Login(password, Rows([user] + rest1), verify) == Login(password, Rows([user] + rest2), verify)
  {
  }

  /** A rejected registration never depends on the database: the insert is not attempted. */
  lemma RejectedRegistrationSkipsInsert(name: Option<string>, email: Option<string>, phone: Option<string>, address: Option<string>)
    requires MissingRecipientField(name, email, phone, address)
    ensures RegisterRecipient(name, email, phone, address, true) == RegisterRecipient(name, email, phone, address, false)
  {
  }
}
