/**
 * The document store's transaction as the POST handler uses it: one record,
 * the attachments written under it, and whether the unit of work was
 * committed or rolled back. Whether each operation is accepted is decided
 * by the store and arrives here as a flag.
 */
module Store {
  import opened Wrappers
  import opened Metadata

  /** An upload record: its identifier, its type and the owning user, if any. */
  datatype Record = Record(id: string, uploadType: string, user: Option<string>)

  /** One attachment written under the record `recordId`. */
  datatype Attachment = Attachment(recordId: string, path: string, meta: Meta)

  /** A snapshot of a transaction. */
  datatype StoreState = StoreState(
    record: Option<Record>,
    attachments: seq<Attachment>,
    committed: bool,
    rolledBack: bool)
  {
    /** Every attachment belongs to the record, and only a created record is committed. */
    predicate Valid()
    {
      && (committed ==> record.Some?)
      && (attachments != [] ==> record.Some?)
      && forall a :: a in attachments ==> a.recordId == record.value.id
    }

    /** What readers outside the transaction can see: nothing until commit. */
    function Visible(): (r: seq<Record>)
      ensures |r| <= 1
      ensures r != [] <==> committed && record.Some?
    {
      if committed && record.Some? then [record.value] else []
    }
  }

  /** A transaction just opened. */
  const Opened := StoreState(None, [], false, false)

  class Transaction {
    var record: Option<Record>
    var attachments: seq<Attachment>
    var committed: bool
    var rolledBack: bool

    function State(): StoreState
      reads this
    {
      StoreState(record, attachments, committed, rolledBack)
    }

    /** Opening a transaction. */
    constructor Start()
      ensures State() == Opened && State().Valid()
    {
      record, attachments, committed, rolledBack := None, [], false, false;
    }

    /** Creating the upload record. */
    method Create(r: Record, accepted: bool)
      requires record.None? && State().Valid()
      modifies this
      ensures State().Valid()
      ensures State() == if accepted then old(State()).(record := Some(r)) else old(State())
    {
      if accepted {
        record := Some(r);
      }
    }

    /** Creating one attachment under the record; it is appended after the earlier ones. */
    method CreateAttachment(path: string, meta: Meta, accepted: bool)
      requires record.Some? && State().Valid()
      modifies this
      ensures State().Valid()
      ensures State() == if accepted
        then old(State()).(attachments := old(attachments) + [Attachment(old(record).value.id, path, meta)])
        else old(State())
    {
      if accepted {
        attachments := attachments + [Attachment(record.value.id, path, meta)];
      }
    }

    /** Committing: the record and its attachments become visible together. */
    method Commit(accepted: bool)
      requires State().Valid() && record.Some?
      modifies this
      ensures State().Valid()
      ensures State() == old(State()).(committed := old(committed) || accepted)
    {
      if accepted {
        committed := true;
      }
    }

    /** Rolling back: the contents stay as written, flagged as discarded when the store accepts. */
    method Rollback(accepted: bool)
      requires State().Valid()
      modifies this
      ensures State().Valid()
      ensures State() == old(State()).(rolledBack := old(rolledBack) || accepted)
    {
      if accepted {
        rolledBack := true;
      }
    }
  }
}
