/** `insertFile` (main.go:310-342): put the upload into the object store
    under a key derived from the time and the file name, insert a catalog row
    that points at it, and optionally send a notification mail. Each step
    aborts the rest when it fails, and nothing already done is undone.

    The object store, the `files` table and the mail relay are modelled as
    plain state: a map from keys to bytes, a sequence of rows with the next
    serial id, and the sequence of mails handed to the relay. */
module Ingestion {
  import opened Outcomes
  import opened Formats
  import opened Catalog

  type Bytes = seq<bv8>

  /** `S3_ENDPOINT` and `S3_BUCKET`. */
  datatype Config = Config(endpoint: string, bucket: string)

  /** The part of minio's `UploadInfo` the pipeline reads. */
  datatype UploadInfo = UploadInfo(key: string, size: nat)

  datatype Mail = Mail(from: string, to: string, subject: string, body: string)

  /** Which step an error came from; the source returns the library's error. */
  datatype IngestError = PutFailed | InsertFailed | MailFailed

  /** Whether each external call succeeds: `PutObject`, the `INSERT`, and
      `DialAndSendWithContext`. */
  datatype Replies = Replies(put: bool, insert: bool, mail: bool)

  /** The contents of the three stores. */
  datatype Stores = Stores(objects: map<string, Bytes>, catalog: seq<Row>, nextId: nat, outbox: seq<Mail>)

  /** What `insertFile` returns and leaves behind. */
  datatype Outcome = Outcome(after: Stores, id: nat, err: Option<IngestError>)

  /** The notification for a stored upload (main.go:330-334). */
  function UploadMail(info: UploadInfo): Mail {
    Mail(MailFrom, MailTo, MailSubject, MailBody(info.key, info.size))
  }

  /** The catalog row `insertFile` asks the database to add (main.go:319-323);
      `created_at` takes the database clock `dbNow`, in database ticks. */
  function NewRow(cfg: Config, id: nat, dbNow: nat, filename: string, info: UploadInfo): Row {
    Row(id, dbNow, filename, CatalogUrl(cfg.endpoint, cfg.bucket, info.key), info.size)
  }

  /** The specification of `insertFile`: `now` is `time.Now().Unix()`, and
      `dbNow` is the database's `now()` at the insert, a database timestamp
      rather than Unix seconds. */
  function Ingest(cfg: Config, st: Stores, now: nat, dbNow: nat, filename: string, content: Bytes,
                  sendEmail: bool, replies: Replies): Outcome
  {
    var key := ObjectKey(now, filename);
    if !replies.put then Outcome(st, 0, Some(PutFailed))
    else
      var info := UploadInfo(key, |content|);
      var stored := st.(objects := st.objects[key := content]);
      if !replies.insert then Outcome(stored, 0, Some(InsertFailed))
      else
        var id := st.nextId;
        var inserted := stored.(catalog := st.catalog + [NewRow(cfg, id, dbNow, filename, info)], nextId := id + 1);
        if !sendEmail then Outcome(inserted, id, None)
        else if !replies.mail then Outcome(inserted, 0, Some(MailFailed))
        else Outcome(inserted.(outbox := st.outbox + [UploadMail(info)]), id, None)
  }

  /** The catalog row's URL names an object that is in the store. */
  ghost predicate Resolves(cfg: Config, st: Stores, url: string) {
    var key := ObjectKeyOfUrl(cfg.endpoint, cfg.bucket, url);
    key.Some? && key.value in st.objects
  }

  /** What the stores keep between uploads: serial ids start at 1 and grow
      with each row, and every catalog row points at a stored object (no
      dangling catalog entries). */
  ghost predicate Consistent(cfg: Config, st: Stores) {
    && st.nextId >= 1
    && (forall i :: 0 <= i < |st.catalog| ==> 1 <= st.catalog[i].id < st.nextId)
    && (forall i, j :: 0 <= i < j < |st.catalog| ==> st.catalog[i].id < st.catalog[j].id)
    && (forall i :: 0 <= i < |st.catalog| ==> Resolves(cfg, st, st.catalog[i].url))
  }

  lemma IngestKeepsConsistent(cfg: Config, st: Stores, now: nat, dbNow: nat, filename: string, content: Bytes,
                              sendEmail: bool, replies: Replies)
    requires Consistent(cfg, st)
    ensures Consistent(cfg, Ingest(cfg, st, now, dbNow, filename, content, sendEmail, replies).after)
  {
    var key := ObjectKey(now, filename);
    var after := Ingest(cfg, st, now, dbNow, filename, content, sendEmail, replies).after;
    assert st.objects.Keys <= after.objects.Keys;
    assert forall i :: 0 <= i < |st.catalog| ==> Resolves(cfg, after, st.catalog[i].url);
    if replies.put && replies.insert {
      UrlRoundTrip(cfg.endpoint, cfg.bucket, key);
      assert after.catalog == st.catalog + [NewRow(cfg, st.nextId, dbNow, filename, UploadInfo(key, |content|))];
    }
  }

  /** The result: an error exactly when a step failed, and then the id is 0;
      on success the id is the new row's serial id, never 0. */
  lemma IngestResult(cfg: Config, st: Stores, now: nat, dbNow: nat, filename: string, content: Bytes,
                     sendEmail: bool, replies: Replies)
    requires Consistent(cfg, st)
    ensures var o := Ingest(cfg, st, now, dbNow, filename, content, sendEmail, replies);
      && (o.err.None? <==> replies.put && replies.insert && (sendEmail ==> replies.mail))
      && (o.err.None? <==> o.id != 0)
      && (o.err.None? ==> o.id == st.nextId)
      && (o.err == Some(PutFailed) <==> !replies.put)
      && (o.err == Some(InsertFailed) <==> replies.put && !replies.insert)
      && (o.err == Some(MailFailed) <==> replies.put && replies.insert && sendEmail && !replies.mail)
  {
  }

  /** What each failure point leaves behind. A failed put changes nothing. A
      failed insert leaves the object stored with no new row (an orphan) and
      sends nothing. A failed mail leaves the row in the catalog although an
      error is returned. */
  lemma IngestFailureEffects(cfg: Config, st: Stores, now: nat, dbNow: nat, filename: string, content: Bytes,
                             sendEmail: bool, replies: Replies)
    ensures var o := Ingest(cfg, st, now, dbNow, filename, content, sendEmail, replies);
      var key := ObjectKey(now, filename);
      && (o.err == Some(PutFailed) ==> o.after == st)
      && (o.err == Some(InsertFailed) ==>
            && o.after.objects == st.objects[key := content]
            && o.after.catalog == st.catalog && o.after.nextId == st.nextId && o.after.outbox == st.outbox)
      && (o.err == Some(MailFailed) ==>
            && o.after.objects == st.objects[key := content]
            && o.after.catalog == st.catalog + [NewRow(cfg, st.nextId, dbNow, filename, UploadInfo(key, |content|))]
            && o.after.nextId == st.nextId + 1
            && o.after.outbox == st.outbox)
  {
  }

  /** An upload that succeeded writes exactly one object and adds exactly one
      catalog row after the old ones, and can be found again: looking up the returned id
      gives a row with the file's name and size, whose URL leads back to the
      derived key, under which the store holds exactly the uploaded bytes;
      lookups of every other id are as before. A mail is queued exactly when
      one was asked for, and it names that key and size. */
  lemma IngestThenFind(cfg: Config, st: Stores, now: nat, dbNow: nat, filename: string, content: Bytes,
                       sendEmail: bool, replies: Replies)
    requires Consistent(cfg, st)
    requires Ingest(cfg, st, now, dbNow, filename, content, sendEmail, replies).err.None?
    ensures var o := Ingest(cfg, st, now, dbNow, filename, content, sendEmail, replies);
      var key := ObjectKey(now, filename);
      var found := FindRow(o.after.catalog, o.id);
      && o.after.objects == st.objects[key := content]
      && o.after.catalog == st.catalog + [NewRow(cfg, st.nextId, dbNow, filename, UploadInfo(key, |content|))]
      && o.after.nextId == st.nextId + 1
      && found.Some?
      && found.value.name == filename && found.value.size == |content| && found.value.createdAt == dbNow
      && ObjectKeyOfUrl(cfg.endpoint, cfg.bucket, found.value.url) == Some(key)
      && key in o.after.objects && o.after.objects[key] == content
      && (forall other :: other != o.id ==> FindRow(o.after.catalog, other) == FindRow(st.catalog, other))
      && (sendEmail ==> o.after.outbox == st.outbox + [UploadMail(UploadInfo(key, |content|))])
      && (!sendEmail ==> o.after.outbox == st.outbox)
  {
    var o := Ingest(cfg, st, now, dbNow, filename, content, sendEmail, replies);
    var key := ObjectKey(now, filename);
    var row := NewRow(cfg, st.nextId, dbNow, filename, UploadInfo(key, |content|));
    assert o.after.catalog == st.catalog + [row];
    forall other
      ensures FindRow(o.after.catalog, other) == if other == row.id then Some(row) else FindRow(st.catalog, other)
    {
      FindRowAfterAppend(st.catalog, row, other);
    }
    UrlRoundTrip(cfg.endpoint, cfg.bucket, key);
  }

  /** An upload that succeeded after every row already in the catalog was
      created heads the home page listing: the database stamps the new row
      with `now()` at the insert, and the listing is newest first. */
  lemma IngestThenListed(cfg: Config, st: Stores, now: nat, dbNow: nat, filename: string, content: Bytes,
                         sendEmail: bool, replies: Replies)
    requires Ingest(cfg, st, now, dbNow, filename, content, sendEmail, replies).err.None?
    requires forall i :: 0 <= i < |st.catalog| ==> st.catalog[i].createdAt < dbNow
    ensures var o := Ingest(cfg, st, now, dbNow, filename, content, sendEmail, replies);
      var listed := RecentRows(o.after.catalog);
      |listed| >= 1 && listed[0] == NewRow(cfg, st.nextId, dbNow, filename, UploadInfo(ObjectKey(now, filename), |content|))
  {
    var o := Ingest(cfg, st, now, dbNow, filename, content, sendEmail, replies);
    var row := NewRow(cfg, st.nextId, dbNow, filename, UploadInfo(ObjectKey(now, filename), |content|));
    assert o.after.catalog == st.catalog + [row];
    NewestRowListedFirst(st.catalog, row);
  }

  /** The queued notification reads back as the stored key and size, with
      the fixed sender, recipient and subject. */
  lemma UploadMailDescribesUpload(info: UploadInfo)
    ensures var m := UploadMail(info);
      && m.from == MailFrom && m.to == MailTo && m.subject == MailSubject
      && ParseMailBody(m.body) == Some((info.key, info.size))
  {
    MailBodyRoundTrip(info.key, info.size);
  }

  /** The handler's clients, reduced to the state of the stores they reach. */
  class Handler {
    const config: Config
    var objects: map<string, Bytes>
    var catalog: seq<Row>
    var nextId: nat
    var outbox: seq<Mail>

    function State(): Stores
      reads this
    {
      Stores(objects, catalog, nextId, outbox)
    }

    /** A handler over an empty bucket, an empty `files` table whose serial
        starts at 1, and no mail sent. */
    constructor (config: Config)
      ensures this.config == config && State() == Stores(map[], [], 1, [])
      ensures Consistent(config, State())
    {
      this.config := config;
      objects := map[];
      catalog := [];
      nextId := 1;
      outbox := [];
    }

    /** `h.s3.PutObject`: stores the bytes under the key and reports the key
        and the byte count, or fails and stores nothing. */
    method PutObject(key: string, content: Bytes, ok: bool) returns (info: Option<UploadInfo>)
      modifies this`objects
      ensures ok ==> info == Some(UploadInfo(key, |content|)) && objects == old(objects)[key := content]
      ensures !ok ==> info == None && objects == old(objects)
    {
      if ok {
        objects := objects[key := content];
        info := Some(UploadInfo(key, |content|));
      } else {
        info := None;
      }
    }

    /** `INSERT INTO files (name, url, size) VALUES (...) RETURNING id`. */
    method InsertRow(name: string, url: string, size: nat, dbNow: nat, ok: bool) returns (id: Option<nat>)
      modifies this`catalog, this`nextId
      ensures ok ==> id == Some(old(nextId)) && nextId == old(nextId) + 1
                     && catalog == old(catalog) + [Row(old(nextId), dbNow, name, url, size)]
      ensures !ok ==> id == None && catalog == old(catalog) && nextId == old(nextId)
    {
      if ok {
        id := Some(nextId);
        catalog := catalog + [Row(nextId, dbNow, name, url, size)];
        nextId := nextId + 1;
      } else {
        id := None;
      }
    }

    /** `h.mailer.DialAndSendWithContext`. */
    method SendMail(m: Mail, ok: bool) returns (sent: bool)
      modifies this`outbox
      ensures sent == ok
      ensures outbox == if ok then old(outbox) + [m] else old(outbox)
    {
      if ok {
        outbox := outbox + [m];
      }
      sent := ok;
    }

    /** `insertFile`, step by step with early returns. */
    method InsertFile(now: nat, dbNow: nat, filename: string, content: Bytes, sendEmail: bool, replies: Replies)
      returns (id: nat, err: Option<IngestError>)
      modifies this
      ensures Outcome(State(), id, err) == Ingest(config, old(State()), now, dbNow, filename, content, sendEmail, replies)
      ensures Consistent(config, old(State())) ==> Consistent(config, State())
    {
      ghost var before := State();
      if Consistent(config, before) {
        IngestKeepsConsistent(config, before, now, dbNow, filename, content, sendEmail, replies);
      }
      var objectKey := ObjectKey(now, filename);

      var info := PutObject(objectKey, content, replies.put);
      if info.None? {
        return 0, Some(PutFailed);
      }

      var url := CatalogUrl(config.endpoint, config.bucket, info.value.key);
      var rowId := InsertRow(filename, url, info.value.size, dbNow, replies.insert);
      if rowId.None? {
        return 0, Some(InsertFailed);
      }

      if sendEmail {
        var sent := SendMail(UploadMail(info.value), replies.mail);
        if !sent {
          return 0, Some(MailFailed);
        }
      }

      return rowId.value, None;
    }
  }
}
