/**
 The SCIM username backfill of
 backend/alembic/versions/28bb08137807_backfill_scim_username_and_add_unique_.py: two
 updates of a table, each reading the table as it was when the statement began.

 lower is the database's lower() function; emails maps a user to that user's email.
 */
module ScimBackfill {
  import opened Wrappers

  datatype Row = Row(id: int, userId: string, username: Option<string>)

  ghost predicate DistinctRows(rows: seq<Row>) {
    && (forall i, j :: 0 <= i < j < |rows| ==> rows[i].id != rows[j].id)
    && (forall i, j :: 0 <= i < j < |rows| ==> rows[i].userId != rows[j].userId)
  }

  /** Two rows hold the same name without regard to case. */
  predicate SameName(a: Row, b: Row, lower: string -> string) {
    a.username.Some? && b.username.Some? && lower(a.username.value) == lower(b.username.value)
  }

  /** The row is the oldest of those that hold its name. */
  predicate IsKeeper(rows: seq<Row>, r: Row, lower: string -> string) {
    forall i :: 0 <= i < |rows| && SameName(rows[i], r, lower) ==> r.id <= rows[i].id
  }

  function NulledRow(rows: seq<Row>, r: Row, lower: string -> string): Row {
    if r.username.Some? && !IsKeeper(rows, r, lower) then r.(username := None) else r
  }

  /** Some row holds this email as its name. */
  predicate IsTaken(rows: seq<Row>, email: string, lower: string -> string) {
    exists i :: 0 <= i < |rows| && rows[i].username.Some? && lower(rows[i].username.value) == lower(email)
  }

  function SeededRow(rows: seq<Row>, r: Row, emails: map<string, string>, lower: string -> string): Row {
    if r.username.None? && r.userId in emails && !IsTaken(rows, emails[r.userId], lower) then
      r.(username := Some(emails[r.userId]))
    else r
  }

  function Nulled(rows: seq<Row>, lower: string -> string): seq<Row> {
    seq(|rows|, i requires 0 <= i < |rows| => NulledRow(rows, rows[i], lower))
  }

  function Seeded(rows: seq<Row>, emails: map<string, string>, lower: string -> string): seq<Row> {
    seq(|rows|, i requires 0 <= i < |rows| => SeededRow(rows, rows[i], emails, lower))
  }

  // ----- What the two updates achieve -----------------------------------

  /** What the unique index demands. */
  ghost predicate UniqueNames(rows: seq<Row>, lower: string -> string) {
    forall i, j :: 0 <= i < j < |rows| ==> !SameName(rows[i], rows[j], lower)
  }

  /** Emails are unique without regard to case, as the user table ensures. */
  ghost predicate UniqueEmails(emails: map<string, string>, lower: string -> string) {
    forall u, v :: u in emails && v in emails && u != v ==> lower(emails[u]) != lower(emails[v])
  }

  /** An older row holds the name of the i-th without regard to case. */
  ghost predicate HeldByOlder(rows: seq<Row>, i: nat, lower: string -> string)
    requires i < |rows|
  {
    rows[i].username.Some? &&
    exists j :: 0 <= j < |rows| && rows[j].id < rows[i].id && rows[j].username.Some? &&
                lower(rows[j].username.value) == lower(rows[i].username.value)
  }

  /** The first update: a row loses its name exactly when an older one holds it. */
  lemma NulledMeaning(rows: seq<Row>, lower: string -> string, i: nat)
    requires i < |rows|
    ensures |Nulled(rows, lower)| == |rows|
    ensures Nulled(rows, lower)[i] == if HeldByOlder(rows, i, lower) then rows[i].(username := None) else rows[i]
  {
    if j :| 0 <= j < |rows| && rows[j].id < rows[i].id && SameName(rows[j], rows[i], lower) {
      assert !IsKeeper(rows, rows[i], lower);
    }
  }

  /** Some row holds this text as its name without regard to case. */
  ghost predicate HeldBySome(rows: seq<Row>, email: string, lower: string -> string) {
    exists j :: 0 <= j < |rows| && rows[j].username.Some? && lower(rows[j].username.value) == lower(email)
  }

  /** The second update: a row without a name takes its user's email unless some row holds that. */
  lemma SeededMeaning(rows: seq<Row>, emails: map<string, string>, lower: string -> string, i: nat)
    requires i < |rows|
    ensures |Seeded(rows, emails, lower)| == |rows|
    ensures Seeded(rows, emails, lower)[i] ==
            if rows[i].username.None? && rows[i].userId in emails && !HeldBySome(rows, emails[rows[i].userId], lower)
            then rows[i].(username := Some(emails[rows[i].userId]))
            else rows[i]
  {
  }

  function Upgraded(rows: seq<Row>, emails: map<string, string>, lower: string -> string): seq<Row> {
    Seeded(Nulled(rows, lower), emails, lower)
  }

  lemma NulledIsUnique(rows: seq<Row>, lower: string -> string)
    requires DistinctRows(rows)
    ensures UniqueNames(Nulled(rows, lower), lower)
    ensures DistinctRows(Nulled(rows, lower))
  {
    var nulled := Nulled(rows, lower);
    forall i, j | 0 <= i < j < |nulled| ensures !SameName(nulled[i], nulled[j], lower) {
      if SameName(nulled[i], nulled[j], lower) {
        assert IsKeeper(rows, rows[i], lower) && IsKeeper(rows, rows[j], lower);
        assert SameName(rows[i], rows[j], lower) && SameName(rows[j], rows[i], lower);
      }
    }
  }

  /** A seeded name differs from every name the table held before. */
  lemma SeededApart(rows: seq<Row>, emails: map<string, string>, lower: string -> string, i: nat, j: nat)
    requires i < |rows| && j < |rows|
    requires rows[i].username.None? && rows[j].username.Some?
    ensures !SameName(SeededRow(rows, rows[i], emails, lower), rows[j], lower)
  {
  }

  /** After the backfill no two names agree without regard to case. */
  lemma UpgradeIsUnique(rows: seq<Row>, emails: map<string, string>, lower: string -> string)
    requires DistinctRows(rows) && UniqueEmails(emails, lower)
    ensures UniqueNames(Upgraded(rows, emails, lower), lower)
  {
    NulledIsUnique(rows, lower);
    var nulled := Nulled(rows, lower);
    var upgraded := Upgraded(rows, emails, lower);
    forall i, j | 0 <= i < j < |rows| ensures !SameName(upgraded[i], upgraded[j], lower) {
      assert !SameName(nulled[i], nulled[j], lower);
      if nulled[i].username.None? && nulled[j].username.Some? {
        SeededApart(nulled, emails, lower, i, j);
      } else if nulled[i].username.Some? && nulled[j].username.None? {
        SeededApart(nulled, emails, lower, j, i);
      }
    }
  }

  // ----- The table ------------------------------------------------------

  class MappingTable {
    var rows: seq<Row>

    constructor (initial: seq<Row>)
      ensures rows == initial
    {
      rows := initial;
    }

    /** The first update: later holders of a name lose it. */
    method NullDuplicates(lower: string -> string)
      modifies this
      ensures rows == Nulled(old(rows), lower)
      ensures forall i :: 0 <= i < |rows| ==>
                            rows[i] == if HeldByOlder(old(rows), i, lower) then old(rows)[i].(username := None)
                                       else old(rows)[i]
    {
      forall i: nat | i < |rows| {
        NulledMeaning(rows, lower, i);
      }
      var snapshot := rows;
      for i := 0 to |snapshot|
        invariant |rows| == |snapshot|
        invariant forall k :: 0 <= k < i ==> rows[k] == NulledRow(snapshot, snapshot[k], lower)
        invariant forall k :: i <= k < |snapshot| ==> rows[k] == snapshot[k]
      {
        var r := rows[i];
        if r.username.Some? && !IsKeeper(snapshot, r, lower) {
          rows := rows[i := r.(username := None)];
        }
      }
    }

    /** The second update: rows without a name take their user's email unless it is held. */
    method SeedFromEmail(emails: map<string, string>, lower: string -> string)
      modifies this
      ensures rows == Seeded(old(rows), emails, lower)
      ensures forall i :: 0 <= i < |rows| ==>
                            var r := old(rows)[i];
                            rows[i] == if r.username.None? && r.userId in emails &&
                                          !HeldBySome(old(rows), emails[r.userId], lower)
                                       then r.(username := Some(emails[r.userId]))
                                       else r
    {
      forall i: nat | i < |rows| {
        SeededMeaning(rows, emails, lower, i);
      }
      var snapshot := rows;
      for i := 0 to |snapshot|
        invariant |rows| == |snapshot|
        invariant forall k :: 0 <= k < i ==> rows[k] == SeededRow(snapshot, snapshot[k], emails, lower)
        invariant forall k :: i <= k < |snapshot| ==> rows[k] == snapshot[k]
      {
        var r := rows[i];
        if r.username.None? && r.userId in emails && !IsTaken(snapshot, emails[r.userId], lower) {
          rows := rows[i := r.(username := Some(emails[r.userId]))];
        }
      }
    }

    /** Both updates; afterwards the unique index on lower(scim_username) can be built. */
    method Upgrade(emails: map<string, string>, lower: string -> string)
      requires DistinctRows(rows) && UniqueEmails(emails, lower)
      modifies this
      ensures rows == Upgraded(old(rows), emails, lower)
      ensures UniqueNames(rows, lower)
    {
      UpgradeIsUnique(rows, emails, lower);
      NullDuplicates(lower);
      SeedFromEmail(emails, lower);
    }
  }

  // ----- What becomes of each row ---------------------------------------

  /** The oldest row of each provisioned name keeps its value, and rows keep their identity. */
  lemma OldestKeepsName(rows: seq<Row>, emails: map<string, string>, lower: string -> string, i: nat)
    requires i < |rows|
    ensures |Upgraded(rows, emails, lower)| == |rows|
    ensures Upgraded(rows, emails, lower)[i].id == rows[i].id
    ensures Upgraded(rows, emails, lower)[i].userId == rows[i].userId
    ensures rows[i].username.Some? && !HeldByOlder(rows, i, lower) ==> Upgraded(rows, emails, lower)[i] == rows[i]
    ensures Upgraded(rows, emails, lower)[i].username == rows[i].username ||
            Upgraded(rows, emails, lower)[i].username.None? ||
            (rows[i].userId in emails && Upgraded(rows, emails, lower)[i].username == Some(emails[rows[i].userId]))
  {
    NulledMeaning(rows, lower, i);
  }

  /** The row has no name to begin with, or loses it to an older row. */
  ghost predicate NeedsName(rows: seq<Row>, i: nat, lower: string -> string)
    requires i < |rows|
  {
    rows[i].username.None? || HeldByOlder(rows, i, lower)
  }

  /** Another row than i holds this email as its name. */
  ghost predicate HeldByAnother(rows: seq<Row>, i: nat, email: string, lower: string -> string) {
    exists j :: 0 <= j < |rows| && j != i && rows[j].username.Some? && lower(rows[j].username.value) == lower(email)
  }

  /**
   A row that needs a name ends without one exactly when another row ends up holding its
   user's email.
   */
  lemma NullOnlyWhenTaken(rows: seq<Row>, emails: map<string, string>, lower: string -> string, i: nat)
    requires DistinctRows(rows) && UniqueEmails(emails, lower)
    requires i < |rows| && rows[i].userId in emails && NeedsName(rows, i, lower)
    ensures var upgraded := Upgraded(rows, emails, lower);
            upgraded[i].username.None? <==> HeldByAnother(upgraded, i, emails[rows[i].userId], lower)
  {
    var nulled := Nulled(rows, lower);
    var upgraded := Upgraded(rows, emails, lower);
    var email := emails[rows[i].userId];
    NulledMeaning(rows, lower, i);
    UpgradeIsUnique(rows, emails, lower);
    if upgraded[i].username.None? {
      var j :| 0 <= j < |nulled| && nulled[j].username.Some? && lower(nulled[j].username.value) == lower(email);
      assert upgraded[j] == nulled[j];
    } else if HeldByAnother(upgraded, i, email, lower) {
      var j :| 0 <= j < |upgraded| && j != i &&
               upgraded[j].username.Some? && lower(upgraded[j].username.value) == lower(email);
      assert SameName(upgraded[i], upgraded[j], lower) && SameName(upgraded[j], upgraded[i], lower);
    }
  }

  lemma UniqueUnchanged(rows: seq<Row>, lower: string -> string)
    requires UniqueNames(rows, lower)
    ensures Nulled(rows, lower) == rows
  {
    forall i, j | 0 <= i < |rows| && 0 <= j < |rows| && i != j ensures !SameName(rows[j], rows[i], lower) {
      if j < i {
        assert !SameName(rows[j], rows[i], lower);
      } else {
        assert !SameName(rows[i], rows[j], lower);
      }
    }
  }

  /** A second run of the two updates changes nothing. */
  lemma UpgradeIdempotent(rows: seq<Row>, emails: map<string, string>, lower: string -> string)
    requires DistinctRows(rows) && UniqueEmails(emails, lower)
    ensures Upgraded(Upgraded(rows, emails, lower), emails, lower) == Upgraded(rows, emails, lower)
  {
    var upgraded := Upgraded(rows, emails, lower);
    UpgradeIsUnique(rows, emails, lower);
    UniqueUnchanged(upgraded, lower);
    var nulled := Nulled(rows, lower);
    forall i | 0 <= i < |upgraded| ensures SeededRow(upgraded, upgraded[i], emails, lower) == upgraded[i] {
      if upgraded[i].username.None? && upgraded[i].userId in emails {
        var email := emails[upgraded[i].userId];
        var j :| 0 <= j < |nulled| && nulled[j].username.Some? && lower(nulled[j].username.value) == lower(email);
        assert upgraded[j] == nulled[j];
        assert IsTaken(upgraded, email, lower);
      }
    }
    assert Seeded(upgraded, emails, lower) == upgraded;
  }
}
