/**
  The user and message tables of database.py, held in memory. A `Database`
  is the pair of tables with the AUTOINCREMENT counters SQLite keeps for
  them. Storage failures, the clock behind CURRENT_TIMESTAMP, bcrypt and the
  face-recognition network are arguments of the operations that use them.
*/
module MessageStore {
  import opened Wrappers
  import Utf8

  type byte = Utf8.byte

  /** A row of the `users` table; the face encoding is kept as its JSON text. */
  datatype UserRow = UserRow(id: nat, username: string, passwordHash: string, faceJson: string)

  /** A row of the `messages` table. */
  datatype MessageRow = MessageRow(
    id: nat, sender: string, recipient: string, messageType: string,
    data: seq<byte>, filename: Option<string>, timestamp: int, isRead: int)

  /** What get_messages_for_user returns per message: no payload. */
  datatype Summary = Summary(id: nat, sender: string, messageType: string, filename: Option<string>, timestamp: int)

  /** What get_message_by_id returns: sender, type, payload and file name. */
  datatype Fetched = Fetched(sender: string, messageType: string, data: seq<byte>, filename: Option<string>)

  /** The `data` argument of send_message: a Python `str` or a `bytes` value. */
  datatype Payload = Text(text: string) | Bytes(bytes: seq<byte>)

  /** The blob send_message stores: the UTF-8 bytes of a text, other data as it is. */
  function Blob(data: Payload): (r: seq<byte>)
    ensures data.Text? ==> Utf8.Decode(r) == Some(data.text)
    ensures data.Bytes? ==> r == data.bytes
  {
    match data
    case Text(s) => Utf8.DecodeEncode(s); Utf8.Encode(s)
    case Bytes(b) => b
  }

  /* ---------- The read queries, as functions of the rows ---------- */

  function Project(row: MessageRow): Summary {
    Summary(row.id, row.sender, row.messageType, row.filename, row.timestamp)
  }

  /** `WHERE recipient_username = ?`, projected to the selected columns, in table order. */
  function Inbox(rows: seq<MessageRow>, username: string): (r: seq<Summary>)
    ensures |r| <= |rows|
  {
    if rows == [] then []
    else (if rows[0].recipient == username then [Project(rows[0])] else []) + Inbox(rows[1..], username)
  }

  /** The inbox holds a summary exactly when some row addressed to the user projects to it. */
  lemma {:induction false} InboxMembers(rows: seq<MessageRow>, username: string, s: Summary)
    ensures s in Inbox(rows, username) <==> exists i :: 0 <= i < |rows| && rows[i].recipient == username && Project(rows[i]) == s
  {
    if rows != [] {
      InboxMembers(rows[1..], username, s);
      if s in Inbox(rows[1..], username) {
        var i :| 0 <= i < |rows[1..]| && rows[1..][i].recipient == username && Project(rows[1..][i]) == s;
        assert rows[i + 1] == rows[1..][i];
      }
      forall i | 1 <= i < |rows| && rows[i].recipient == username && Project(rows[i]) == s
        ensures s in Inbox(rows[1..], username)
      {
        assert rows[1..][i - 1] == rows[i];
      }
    }
  }

  /** A new row reaches the inbox of its recipient, at the end, and no other inbox. */
  lemma {:induction false} InboxAppend(rows: seq<MessageRow>, row: MessageRow, username: string)
    ensures Inbox(rows + [row], username) == Inbox(rows, username) + (if row.recipient == username then [Project(row)] else [])
  {
    if rows == [] {
      assert [] + [row] == [row];
    } else {
      var head := if rows[0].recipient == username then [Project(rows[0])] else [];
      var tail := if row.recipient == username then [Project(row)] else [];
      assert (rows + [row])[0] == rows[0] && (rows + [row])[1..] == rows[1..] + [row];
      InboxAppend(rows[1..], row, username);
      assert head + (Inbox(rows[1..], username) + tail) == head + Inbox(rows[1..], username) + tail;
    }
  }

  /** The entries are in non-increasing timestamp order. */
  predicate Newest(s: seq<Summary>) {
    forall i, j :: 0 <= i < j < |s| ==> s[i].timestamp >= s[j].timestamp
  }

  /** An entry at least as new as the head of a sorted list can go in front of it. */
  lemma ConsNewest(y: Summary, t: seq<Summary>)
    requires Newest(t)
    requires t != [] ==> y.timestamp >= t[0].timestamp
    ensures Newest([y] + t)
  {
    var r := [y] + t;
    forall i, j | 0 <= i < j < |r| ensures r[i].timestamp >= r[j].timestamp {
      if i == 0 {
        assert r[j] == t[j - 1];
        assert t[0].timestamp >= t[j - 1].timestamp || j == 1;
      } else {
        assert r[i] == t[i - 1] && r[j] == t[j - 1];
      }
    }
  }

  /** Puts `x` in front of the first entry that is not newer than it. */
  function InsertNewest(x: Summary, s: seq<Summary>): (r: seq<Summary>)
    requires Newest(s)
    ensures Newest(r)
    ensures multiset(r) == multiset(s) + multiset{x}
    ensures |r| == |s| + 1 && (r[0] == x || (s != [] && r[0] == s[0]))
  {
    if s == [] || s[0].timestamp <= x.timestamp then
      ConsNewest(x, s);
      [x] + s
    else
      var rest := InsertNewest(x, s[1..]);
      assert s == [s[0]] + s[1..];
      assert Newest(s[1..]) by {
        forall i, j | 0 <= i < j < |s[1..]| ensures s[1..][i].timestamp >= s[1..][j].timestamp {
          assert s[1..][i] == s[i + 1] && s[1..][j] == s[j + 1];
        }
      }
      assert rest[0].timestamp <= s[0].timestamp;
      ConsNewest(s[0], rest);
      [s[0]] + rest
  }

  /** `ORDER BY timestamp DESC`: the same entries, newest first. Equal timestamps come in no promised order. */
  function SortNewest(s: seq<Summary>): (r: seq<Summary>)
    ensures Newest(r)
    ensures multiset(r) == multiset(s)
  {
    if s == [] then []
    else
      assert s == [s[0]] + s[1..];
      InsertNewest(s[0], SortNewest(s[1..]))
  }

  /** `SELECT ... WHERE id = ?` with fetchone: the first row with that id, if any. */
  function Lookup(rows: seq<MessageRow>, id: nat): (r: Option<Fetched>)
    ensures r.None? <==> forall i :: 0 <= i < |rows| ==> rows[i].id != id
    ensures r.Some? ==> exists i :: (0 <= i < |rows| && rows[i].id == id
      && r.value == Fetched(rows[i].sender, rows[i].messageType, rows[i].data, rows[i].filename))
  {
    if rows == [] then None
    else if rows[0].id == id then Some(Fetched(rows[0].sender, rows[0].messageType, rows[0].data, rows[0].filename))
    else
      var r := Lookup(rows[1..], id);
      assert forall i :: 1 <= i < |rows| ==> rows[i] == rows[1..][i - 1];
      r
  }

  /** A row with a new id is found under that id, and every other lookup is as before. */
  lemma {:induction false} LookupAppend(rows: seq<MessageRow>, row: MessageRow, id: nat)
    requires forall i :: 0 <= i < |rows| ==> rows[i].id != row.id
    ensures id == row.id ==> Lookup(rows + [row], id) == Some(Fetched(row.sender, row.messageType, row.data, row.filename))
    ensures id != row.id ==> Lookup(rows + [row], id) == Lookup(rows, id)
  {
    if rows == [] {
      assert [] + [row] == [row];
    } else {
      assert (rows + [row])[1..] == rows[1..] + [row];
      LookupAppend(rows[1..], row, id);
    }
  }

  /** Python truthiness of the optional `exclude_user` argument: None and "" are false. */
  predicate Truthy(s: Option<string>) {
    s.Some? && s.value != ""
  }

  /** get_all_usernames: every username, without `exclude` when it is truthy, in table order. */
  function Usernames(users: seq<UserRow>, exclude: Option<string>): (r: seq<string>)
    ensures |r| <= |users|
  {
    if users == [] then []
    else
      (if Truthy(exclude) && users[0].username == exclude.value then [] else [users[0].username])
      + Usernames(users[1..], exclude)
  }

  lemma {:induction false} UsernamesMembers(users: seq<UserRow>, exclude: Option<string>, name: string)
    ensures name in Usernames(users, exclude) <==>
      (exists i :: 0 <= i < |users| && users[i].username == name) && !(Truthy(exclude) && name == exclude.value)
  {
    if users != [] {
      UsernamesMembers(users[1..], exclude, name);
      if exists i :: 1 <= i < |users| && users[i].username == name {
        var i :| 1 <= i < |users| && users[i].username == name;
        assert users[1..][i - 1] == users[i];
      }
      if exists i :: 0 <= i < |users[1..]| && users[1..][i].username == name {
        var i :| 0 <= i < |users[1..]| && users[1..][i].username == name;
        assert users[i + 1] == users[1..][i];
      }
    }
  }

  /** The user row with that username, if there is one. */
  function FindUser(users: seq<UserRow>, username: string): (r: Option<UserRow>)
    ensures r.None? <==> forall i :: 0 <= i < |users| ==> users[i].username != username
    ensures r.Some? ==> r.value in users && r.value.username == username
  {
    if users == [] then None
    else if users[0].username == username then Some(users[0])
    else
      assert forall i :: 1 <= i < |users| ==> users[i] == users[1..][i - 1];
      FindUser(users[1..], username)
  }

  /** Strictly increasing message ids, all below the next id AUTOINCREMENT hands out. */
  predicate MessageIdsBelow(rows: seq<MessageRow>, next: nat) {
    (forall i :: 0 <= i < |rows| ==> rows[i].id < next)
    && (forall i, j :: 0 <= i < j < |rows| ==> rows[i].id < rows[j].id)
  }

  /** Strictly increasing user ids below the next one, and no username twice. */
  predicate UsersWellFormed(users: seq<UserRow>, next: nat) {
    (forall i :: 0 <= i < |users| ==> users[i].id < next)
    && (forall i, j :: 0 <= i < j < |users| ==> users[i].id < users[j].id)
    && (forall i, j :: 0 <= i < j < |users| ==> users[i].username != users[j].username)
  }

  /** Appending a row under the next id keeps the ids increasing. */
  lemma MessageIdsAppend(rows: seq<MessageRow>, row: MessageRow, next: nat)
    requires MessageIdsBelow(rows, next) && row.id == next
    ensures MessageIdsBelow(rows + [row], next + 1)
  {
  }

  /** Appending a user under the next id and an unused name keeps the table well formed. */
  lemma UsersAppend(users: seq<UserRow>, row: UserRow, next: nat)
    requires UsersWellFormed(users, next) && row.id == next
    requires FindUser(users, row.username).None?
    ensures UsersWellFormed(users + [row], next + 1)
  {
  }

  /** With unique usernames, the row FindUser returns is the only one with that name. */
  lemma FindUserUnique(users: seq<UserRow>, next: nat, username: string, i: nat)
    requires UsersWellFormed(users, next)
    requires i < |users| && users[i].username == username
    ensures FindUser(users, username) == Some(users[i])
  {
    var u := FindUser(users, username).value;
    var j :| 0 <= j < |users| && users[j] == u;
    assert users[j].username == users[i].username;
  }

  const Sent: string := "Pesan berhasil terkirim."
  const SendFailedPrefix: string := "Gagal mengirim pesan: "
  const Incomplete: string := "Data tidak lengkap."
  const NoFace: string := "Tidak ada wajah yang terdeteksi di gambar. Coba lagi."
  const Registered: string := "Registrasi berhasil."
  const LoginIncomplete: string := "Data login tidak lengkap."
  const UnknownUser: string := "Username tidak ditemukan."
  const WrongPassword: string := "Password salah."
  const FaceMismatch: string := "Wajah tidak cocok dengan data yang tersimpan."
  const LoggedIn: string := "Login berhasil."

  /** The message add_user returns when the UNIQUE constraint on usernames fails. */
  function Duplicate(username: string): string {
    "Username '" + username + "' sudah ada."
  }

  class Database {
    var users: seq<UserRow>
    var messages: seq<MessageRow>
    /** One more than the largest user id ever handed out. */
    var nextUserId: nat
    /** One more than the largest message id ever handed out. */
    var nextMessageId: nat

    /** Ids are unique and increasing, and usernames are unique. */
    predicate Valid()
      reads this
    {
      nextUserId >= 1 && nextMessageId >= 1
      && UsersWellFormed(users, nextUserId)
      && MessageIdsBelow(messages, nextMessageId)
    }

    /** init_db on a fresh file: both tables empty. */
    constructor ()
      ensures Valid()
      ensures users == [] && messages == []
    {
      users := [];
      messages := [];
      nextUserId := 1;
      nextMessageId := 1;
    }

    /**
      send_message: on success one row is added, with a fresh id larger than
      every id before, is_read 0 and the clock's time; on a storage error
      nothing changes.
    */
    method SendMessage(sender: string, recipient: string, messageType: string, data: Payload,
                       filename: Option<string>, now: int, storageError: Option<string>)
      returns (ok: bool, message: string)
      requires Valid()
      modifies this
      ensures Valid()
      ensures users == old(users) && nextUserId == old(nextUserId)
      ensures storageError.Some? ==>
        !ok && message == SendFailedPrefix + storageError.value
        && messages == old(messages) && nextMessageId == old(nextMessageId)
      ensures storageError.None? ==>
        ok && message == Sent
        && messages == old(messages) + [MessageRow(old(nextMessageId), sender, recipient, messageType, Blob(data), filename, now, 0)]
        && nextMessageId == old(nextMessageId) + 1
      ensures ok ==> forall i :: 0 <= i < |old(messages)| ==> old(messages)[i].id < messages[|messages| - 1].id
    {
      if storageError.Some? {
        return false, SendFailedPrefix + storageError.value;
      }
      var row := MessageRow(nextMessageId, sender, recipient, messageType, Blob(data), filename, now, 0);
      MessageIdsAppend(messages, row, nextMessageId);
      messages := messages + [row];
      nextMessageId := nextMessageId + 1;
      return true, Sent;
    }

    /** get_messages_for_user: the summaries of exactly the messages addressed to the user, newest first. */
    method GetMessagesForUser(username: string) returns (r: seq<Summary>)
      ensures Newest(r)
      ensures multiset(r) == multiset(Inbox(messages, username))
    {
      r := SortNewest(Inbox(messages, username));
    }

    /**
      get_message_by_id: the stored fields of the row with that id, or None.
      The caller is not asked who they are: any id can be read.
    */
    method GetMessageById(messageId: nat) returns (r: Option<Fetched>)
      ensures r == Lookup(messages, messageId)
    {
      r := Lookup(messages, messageId);
    }

    /** get_all_usernames. */
    method GetAllUsernames(excludeUser: Option<string>) returns (r: seq<string>)
      ensures r == Usernames(users, excludeUser)
    {
      r := Usernames(users, excludeUser);
    }

    /**
      add_user. The checks, in order: all three inputs given; a face found in
      the image (`faceJson` is what the face network produced, None when it
      found none); the store reachable; the username not yet taken. The
      password hash is bcrypt's result for the password.
    */
    method AddUser(username: string, password: string, faceImage: Option<seq<byte>>,
                   faceJson: Option<string>, passwordHash: string, storageError: Option<string>)
      returns (ok: bool, message: string)
      requires Valid()
      modifies this
      ensures Valid()
      ensures messages == old(messages) && nextMessageId == old(nextMessageId)
      ensures username == "" || password == "" || faceImage.None? ==> !ok && message == Incomplete
      ensures username != "" && password != "" && faceImage.Some? && faceJson.None? ==> !ok && message == NoFace
      ensures username != "" && password != "" && faceImage.Some? && faceJson.Some? ==>
        if storageError.Some? then !ok && message == "Error: " + storageError.value
        else if FindUser(old(users), username).Some? then !ok && message == Duplicate(username)
        else ok && message == Registered
      ensures ok ==>
        users == old(users) + [UserRow(old(nextUserId), username, passwordHash, faceJson.value)]
        && nextUserId == old(nextUserId) + 1
      ensures !ok ==> users == old(users) && nextUserId == old(nextUserId)
    {
      if username == "" || password == "" || faceImage.None? {
        return false, Incomplete;
      }
      if faceJson.None? {
        return false, NoFace;
      }
      if storageError.Some? {
        return false, "Error: " + storageError.value;
      }
      if FindUser(users, username).Some? {
        return false, Duplicate(username);
      }
      var row := UserRow(nextUserId, username, passwordHash, faceJson.value);
      UsersAppend(users, row, nextUserId);
      users := users + [row];
      nextUserId := nextUserId + 1;
      return true, Registered;
    }

    /**
      verify_user. `passwordMatches(password, hash)` stands for bcrypt's check
      and `faceMatches(faceJson, image)` for the face comparison.
    */
    method VerifyUser(username: string, password: string, faceImage: Option<seq<byte>>,
                      passwordMatches: (string, string) -> bool, faceMatches: (string, seq<byte>) -> bool)
      returns (ok: bool, message: string)
      requires Valid()
      ensures username == "" || password == "" || faceImage.None? ==> !ok && message == LoginIncomplete
      ensures username != "" && password != "" && faceImage.Some? ==>
        match FindUser(users, username)
        case None => !ok && message == UnknownUser
        case Some(u) =>
          if !passwordMatches(password, u.passwordHash) then !ok && message == WrongPassword
          else if !faceMatches(u.faceJson, faceImage.value) then !ok && message == FaceMismatch
          else ok && message == LoggedIn
      ensures ok <==> (
        username != "" && password != "" && faceImage.Some?
        && exists i :: (0 <= i < |users| && users[i].username == username
          && passwordMatches(password, users[i].passwordHash) && faceMatches(users[i].faceJson, faceImage.value)))
    {
      if username == "" || password == "" || faceImage.None? {
        return false, LoginIncomplete;
      }
      var found := FindUser(users, username);
      if found.None? {
        return false, UnknownUser;
      }
      var u := found.value;
      forall i | 0 <= i < |users| && users[i].username == username ensures users[i] == u {
        FindUserUnique(users, nextUserId, username, i);
      }
      if !passwordMatches(password, u.passwordHash) {
        return false, WrongPassword;
      }
      if !faceMatches(u.faceJson, faceImage.value) {
        return false, FaceMismatch;
      }
      return true, LoggedIn;
    }
  }
}
