/** Rows of the chat-history table and the ways the dashboard reads the text
    out of a row's polymorphic `message` payload. */
module Records {
  import opened Outcomes
  import opened Seqs

  /** The `message` column: an object (with its `text` member as a string,
      when the member is present), JSON null, or a string. */
  datatype Payload = Object(text: Option<string>) | Null | Scalar(repr: string)

  /** A value of one of the table's further columns. */
  datatype Cell = TextCell(s: string) | BoolCell(b: bool)

  /** One row of the message table. `createdAt` is the creation instant in
      milliseconds, used for every comparison; `createdAtText` is the text
      the backend returns for the same column, which the export writes out. */
  datatype Row = Row(
    sessionId: string,
    message: Payload,
    createdAt: int,
    createdAtText: string,
    extra: map<string, Cell>)

  function SessionOf(r: Row): string {
    r.sessionId
  }

  function CreatedAt(r: Row): int {
    r.createdAt
  }

  /** Sort key for newest-first order. */
  function Recency(r: Row): int {
    -r.createdAt
  }

  /** The session ids of `rows`, one per row, in row order. */
  function SessionIds(rows: seq<Row>): (ids: seq<string>)
    ensures |ids| == |rows|
    ensures forall i :: 0 <= i < |rows| ==> ids[i] == rows[i].sessionId
    ensures Elems(ids) == SessionSet(rows)
  {
    var ids := seq(|rows|, i requires 0 <= i < |rows| => rows[i].sessionId);
    assert forall x :: x in ids ==> exists r :: r in rows && r.sessionId == x;
    ids
  }

  /** The session ids that occur in `rows`. */
  function SessionSet(rows: seq<Row>): set<string> {
    set r | r in rows :: r.sessionId
  }

  /** A further row adds its own session and no other. */
  lemma SessionSetSnoc(p: seq<Row>, x: Row)
    ensures SessionSet(p + [x]) == SessionSet(p) + {x.sessionId}
  {
    forall k | k in SessionSet(p)
      ensures k in SessionSet(p + [x])
    {
      var r :| r in p && r.sessionId == k;
      assert r in p + [x];
    }
    assert x in p + [x];
    forall k | k in SessionSet(p + [x])
      ensures k in SessionSet(p) + {x.sessionId}
    {
      var r :| r in p + [x] && r.sessionId == k;
      if r != x {
        assert r in p;
      }
    }
  }

  const ObjectText := "[object Object]"

  /** `String(message)`. */
  function Stringify(p: Payload): string {
    match p
    case Object(_) => ObjectText
    case Null => "null"
    case Scalar(s) => s
  }

  /** The text as the message renderer and the CSV export read it: the
      `text` member of an object that has one, else `String(message)`. */
  function TextOf(p: Payload): string {
    if p.Object? && p.text.Some? then p.text.value else Stringify(p)
  }

  /** The text as the RX classifier reads it: the `text` member when it is
      truthy, else `String(message)`. */
  function ClassifierText(p: Payload): string {
    if p.Object? && p.text.Some? && p.text.value != "" then p.text.value else Stringify(p)
  }

  /** The two readers differ exactly on an object whose `text` is empty:
      the renderer reads "" and the classifier reads "[object Object]". */
  lemma TextReadersAgree(p: Payload)
    ensures TextOf(p) == ClassifierText(p) <==> p != Object(Some(""))
  {
    if p == Object(Some("")) {
      assert TextOf(p) == "";
      assert |ClassifierText(p)| == 15;
    }
  }

  const MessageTextColumn := "message->>text"

  /** The value the backend sees in column `col` of `r`; `None` is SQL NULL.
      `message->>text` is the text member of an object payload. */
  function Column(r: Row, col: string): Option<Cell> {
    if col == "session_id" then Some(TextCell(r.sessionId))
    else if col == "created_at" then Some(TextCell(r.createdAtText))
    else if col == MessageTextColumn then
      (if r.message.Object? && r.message.text.Some? then Some(TextCell(r.message.text.value)) else None)
    else if col in r.extra then Some(r.extra[col])
    else None
  }
}
