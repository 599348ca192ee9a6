/** The connection registry of the Connect page (frontend/src/pages/Connect.tsx): the
    connection form, changing the engine, saving (adding or editing) and deleting, each
    as a pure function over the sequence of saved connections. */
module Connect {
  import opened Wrappers
  import opened Text
  import opened Seqs
  import opened DatabaseUtils

  /** The fields the connection dialog edits. The port field is a number input whose
      text goes through `parseInt`, so the port is a JavaScript number, NaN included. */
  datatype ConnectionForm = ConnectionForm(
    name: string,
    dbType: DatabaseType,
    host: string,
    port: JsNumber,
    username: string,
    password: string,
    database: string)

  /** The form of a new connection: a PostgreSQL server on localhost. */
  const DefaultForm := ConnectionForm("", PostgreSql, "localhost", Number(5432), "", "", "")

  const NameRequired := "Connection name is required"

  /** The default form proposes the default port of its engine. */
  lemma DefaultFormPort()
    ensures DefaultForm.port == Number(DefaultPort(DefaultForm.dbType))
    ensures DefaultForm.name == "" && DefaultForm.host == "localhost"
  {
  }

  /** `handleConnectionTypeChange`: selecting an engine also proposes its default port. */
  function ChangeType(form: ConnectionForm, t: DatabaseType): (f: ConnectionForm)
    ensures f.dbType == t && f.port == Number(DefaultPort(t))
    ensures f.name == form.name && f.host == form.host && f.username == form.username
         && f.password == form.password && f.database == form.database
  {
    form.(dbType := t, port := Number(DefaultPort(t)))
  }

  /** Only the last engine chosen matters. */
  lemma ChangeTypeLastWins(form: ConnectionForm, s: DatabaseType, t: DatabaseType)
    ensures ChangeType(ChangeType(form, s), t) == ChangeType(form, t)
  {
  }

  /** Choosing the engine the form already has with its default port changes nothing. */
  lemma ChangeTypeKeepsConsistentForm(form: ConnectionForm)
    requires form.port == Number(DefaultPort(form.dbType))
    ensures ChangeType(form, form.dbType) == form
  {
  }

  /** The port field's `onChange`: the port becomes `parseInt` of the field's text; the
      other fields are kept. */
  function SetPortText(form: ConnectionForm, text: string): (f: ConnectionForm)
    ensures f.name == form.name && f.dbType == form.dbType && f.host == form.host
         && f.username == form.username && f.password == form.password
         && f.database == form.database
    ensures text == "" ==> f.port == NaN
  {
    form.(port := ParseInt(text))
  }

  /** Typing a decimal numeral into the port field sets the port to its value. */
  lemma SetPortReadsNumeral(form: ConnectionForm, n: nat)
    ensures SetPortText(form, NatToString(n)).port == Number(n)
  {
    ParseIntRoundTrip(n);
  }

  /** The form `handleOpenConnectionModal` fills in from a saved connection. */
  function FormOf(c: DatabaseConnection): (f: ConnectionForm)
    ensures f.name == c.name && f.dbType == c.dbType && f.port == c.port
  {
    ConnectionForm(c.name, c.dbType, c.host, c.port, c.username, c.password, c.database)
  }

  /** The dialog edits an existing connection only when edit mode is on and a connection
      is selected; otherwise saving adds. */
  predicate Editing(isEditMode: bool, selected: Option<DatabaseConnection>) {
    isEditMode && selected.Some?
  }

  /** The connection record saving builds: the form's fields, the identity and history of
      the edited connection (or a fresh id, the current time and no backup yet), and the
      status "connected" whatever any connection test reported. */
  function NewConnection(form: ConnectionForm, isEditMode: bool,
                         selected: Option<DatabaseConnection>,
                         freshId: string, now: int): (c: DatabaseConnection)
    ensures FormOf(c) == form
    ensures c.status == Connected && c.error == None
    ensures Editing(isEditMode, selected) ==>
              c.id == selected.value.id && c.createdAt == selected.value.createdAt
              && c.lastBackupAt == selected.value.lastBackupAt
    ensures !Editing(isEditMode, selected) ==>
              c.id == freshId && c.createdAt == now && c.lastBackupAt == None
  {
    var editing := Editing(isEditMode, selected);
    DatabaseConnection(
      if editing then selected.value.id else freshId,
      form.name, form.dbType, form.host, form.port, form.username, form.password,
      form.database,
      if editing then selected.value.createdAt else now,
      if editing then selected.value.lastBackupAt else None,
      Connected, None)
  }

  /** Saving an edit without changing the form gives back the connection, marked as
      connected and with its error cleared. */
  lemma EditUnchangedForm(c: DatabaseConnection, freshId: string, now: int)
    ensures NewConnection(FormOf(c), true, Some(c), freshId, now)
         == c.(status := Connected, error := None)
  {
  }

  /** Every connection whose id is `id` replaced by `newC`. */
  function ReplaceById(conns: seq<DatabaseConnection>, id: string, newC: DatabaseConnection)
    : (r: seq<DatabaseConnection>)
    ensures |r| == |conns|
    ensures forall i :: 0 <= i < |conns| ==>
              r[i] == (if conns[i].id == id then newC else conns[i])
  {
    seq(|conns|, i requires 0 <= i < |conns| =>
      if conns[i].id == id then newC else conns[i])
  }

  /** The result of `handleSaveConnection`: the connection list afterwards, and the
      validation message when the save was refused. */
  datatype SaveResult = SaveResult(connections: seq<DatabaseConnection>, error: Option<string>)

  /** `handleSaveConnection`: a name that is blank once trimmed is refused; otherwise the
      new record replaces the edited connection, or is appended. */
  function SaveConnection(conns: seq<DatabaseConnection>, form: ConnectionForm,
                          isEditMode: bool, selected: Option<DatabaseConnection>,
                          freshId: string, now: int): (r: SaveResult)
    ensures r.error.Some? <==> IsBlank(form.name, IsJsSpace)
    ensures r.error.Some? ==> r.error == Some(NameRequired) && r.connections == conns
    ensures r.error.None? && !Editing(isEditMode, selected) ==>
              |r.connections| == |conns| + 1 && r.connections[..|conns|] == conns
              && r.connections[|conns|] == NewConnection(form, isEditMode, selected, freshId, now)
              && r.connections[|conns|].lastBackupAt == None
    ensures r.error.None? && Editing(isEditMode, selected) ==>
              |r.connections| == |conns|
              && forall i :: 0 <= i < |conns| ==>
                   if conns[i].id == selected.value.id
                   then r.connections[i] == NewConnection(form, isEditMode, selected, freshId, now)
                   else r.connections[i] == conns[i]
  {
    TrimEmptyIffBlank(form.name, IsJsSpace);
    if Trim(form.name, IsJsSpace) == "" then SaveResult(conns, Some(NameRequired))
    else
      var c := NewConnection(form, isEditMode, selected, freshId, now);
      if Editing(isEditMode, selected) then SaveResult(ReplaceById(conns, selected.value.id, c), None)
      else SaveResult(conns + [c], None)
  }

  /** Only the name is checked: a form with a non-blank name is saved even when the host,
      user, password and database are all empty. */
  lemma OnlyNameValidated(conns: seq<DatabaseConnection>, form: ConnectionForm,
                          isEditMode: bool, selected: Option<DatabaseConnection>,
                          freshId: string, now: int)
    requires !IsBlank(form.name, IsJsSpace)
    ensures SaveConnection(conns, form.(host := "", username := "", password := "",
                                        database := ""),
                           isEditMode, selected, freshId, now).error == None
  {
  }

  /** Clearing the port field leaves the port NaN, and a form with a name is still saved
      with that port. */
  lemma ClearedPortSaved(conns: seq<DatabaseConnection>, form: ConnectionForm,
                         freshId: string, now: int)
    requires !IsBlank(form.name, IsJsSpace)
    ensures var r := SaveConnection(conns, SetPortText(form, ""), false, None, freshId, now);
      r.error == None && r.connections[|conns|].port == NaN
  {
  }

  /** Editing keeps the ids of the list, position by position. */
  lemma {:induction false} EditKeepsIds(conns: seq<DatabaseConnection>, form: ConnectionForm,
                                        selected: DatabaseConnection, freshId: string, now: int)
    requires !IsBlank(form.name, IsJsSpace)
    ensures var r := SaveConnection(conns, form, true, Some(selected), freshId, now).connections;
      |r| == |conns| && forall i :: 0 <= i < |r| ==> r[i].id == conns[i].id
  {
    var c := NewConnection(form, true, Some(selected), freshId, now);
    var r := SaveConnection(conns, form, true, Some(selected), freshId, now).connections;
    assert r == ReplaceById(conns, selected.id, c);
    forall i | 0 <= i < |r| ensures r[i].id == conns[i].id {
      if conns[i].id == selected.id {
        assert r[i] == c;
      } else {
        assert r[i] == conns[i];
      }
    }
  }

  /** Saving the same edit twice is saving it once. */
  lemma EditIdempotent(conns: seq<DatabaseConnection>, form: ConnectionForm,
                       selected: DatabaseConnection, freshId: string, now: int)
    ensures var once := SaveConnection(conns, form, true, Some(selected), freshId, now).connections;
      SaveConnection(once, form, true, Some(selected), freshId, now).connections == once
  {
    if !IsBlank(form.name, IsJsSpace) {
      var c := NewConnection(form, true, Some(selected), freshId, now);
      var once := SaveConnection(conns, form, true, Some(selected), freshId, now).connections;
      assert once == ReplaceById(conns, selected.id, c);
      assert SaveConnection(once, form, true, Some(selected), freshId, now).connections
          == ReplaceById(once, selected.id, c);
      ReplaceByIdIdempotent(conns, selected.id, c);
    }
  }

  /** Replacing by an id with a record that keeps the id a second time changes nothing. */
  lemma ReplaceByIdIdempotent(conns: seq<DatabaseConnection>, id: string, c: DatabaseConnection)
    requires c.id == id
    ensures ReplaceById(ReplaceById(conns, id, c), id, c) == ReplaceById(conns, id, c)
  {
    var once := ReplaceById(conns, id, c);
    var twice := ReplaceById(once, id, c);
    forall i | 0 <= i < |once| ensures twice[i] == once[i] {
    }
  }

  /** The predicate of the delete filter: a connection other than the one with `id`. */
  function IdIsNot(id: string): DatabaseConnection -> bool {
    (c: DatabaseConnection) => c.id != id
  }

  /** `handleDeleteConnection`: with a connection marked for deletion, every connection
      with its id is removed and the rest keep their order; with none it does nothing. */
  function DeleteConnection(conns: seq<DatabaseConnection>, target: Option<DatabaseConnection>)
    : (r: seq<DatabaseConnection>)
    ensures target.None? ==> r == conns
    ensures target.Some? ==>
              && (forall i :: 0 <= i < |r| ==> r[i].id != target.value.id && r[i] in conns)
              && (forall i :: 0 <= i < |conns| && conns[i].id != target.value.id ==> conns[i] in r)
  {
    match target
    case None => conns
    case Some(t) => Filter(conns, IdIsNot(t.id))
  }

  /** Deletion keeps the survivors in their original order. */
  lemma DeleteKeepsOrder(conns: seq<DatabaseConnection>, target: Option<DatabaseConnection>)
    ensures IsSubsequence(DeleteConnection(conns, target), conns)
  {
    match target
    case None => SubsequenceReflexive(conns);
    case Some(t) => FilterIsSubsequence(conns, IdIsNot(t.id));
  }

  /** Deleting a connection just added under a fresh id gives back the list before. */
  lemma DeleteUndoesAdd(conns: seq<DatabaseConnection>, form: ConnectionForm,
                        freshId: string, now: int)
    requires !IsBlank(form.name, IsJsSpace)
    requires forall i :: 0 <= i < |conns| ==> conns[i].id != freshId
    ensures var added := SaveConnection(conns, form, false, None, freshId, now);
      DeleteConnection(added.connections, Some(added.connections[|conns|])) == conns
  {
    var c := NewConnection(form, false, None, freshId, now);
    var added := SaveConnection(conns, form, false, None, freshId, now).connections;
    assert added == conns + [c];
    FilterAppend(conns, [c], IdIsNot(freshId));
    FilterKeepsAll(conns, IdIsNot(freshId));
    assert Filter([c], IdIsNot(freshId)) == [];
    assert conns + [] == conns;
  }

  /** Deleting the same connection twice is deleting it once. */
  lemma DeleteIdempotent(conns: seq<DatabaseConnection>, target: Option<DatabaseConnection>)
    ensures DeleteConnection(DeleteConnection(conns, target), target)
         == DeleteConnection(conns, target)
  {
    match target
    case None =>
    case Some(t) => FilterIdempotent(conns, IdIsNot(t.id));
  }
}
