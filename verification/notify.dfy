/** Sending the notification e-mails (`send_email_notifications` in
    src/notify/mod.rs): convert the changed series to entries, group them by
    subscriber, set up the mail transport, then compose and send one message
    per subscriber.

    As written, every message's HTML body renders all changed entries, while
    its inline attachments are only the posters of that subscriber's own
    entries, so a subscriber's body can refer to posters that are not
    attached. The model keeps that behaviour. */
module Notify {
  import opened Wrappers
  import opened Errors
  import opened Dates
  import opened Store
  import opened Changes
  import opened Entries
  import opened EmailHtml
  import opened Fanout

  /** The sender identity from the configuration. */
  datatype MailConfig = MailConfig(fromName: string, fromAddress: string)

  datatype Message = Message(
    fromName: string,
    fromAddress: string,
    toName: string,
    toAddress: string,
    subject: string,
    body: seq<Block>,
    attachments: seq<Attachment>)

  /** "TVTrack updates YYYY-MM-DD", dated with the local calendar day. */
  function Subject(today: Date): string {
    "TVTrack updates " + FormatIso(today)
  }

  /** The message for one subscriber group: a body over `all` entries and the
      posters of the group's own entries. */
  function ComposeMessage(config: MailConfig, today: Date, all: seq<SeriesEntry>, g: Group): (m: Message)
    requires AllHavePosterExtension(all) && AllHavePosterExtension(g.entries)
    ensures m.toName == g.user.name && m.toAddress == g.user.email
    ensures m.body == RenderBlocks(all)
    ensures |m.attachments| == |g.entries|
    ensures forall i :: 0 <= i < |g.entries| ==> "cid:" + m.attachments[i].contentId == PosterAttachmentUri(g.entries[i])
  {
    Message(config.fromName, config.fromAddress, g.user.name, g.user.email, Subject(today),
            RenderBlocks(all),
            seq(|g.entries|, i requires 0 <= i < |g.entries| => CreatePosterAttachment(g.entries[i])))
  }

  /** What a notification run did: its outcome and the messages the transport
      accepted, in order. */
  datatype Notification = Notification(result: Outcome<Error>, sent: seq<Message>)

  predicate GroupsHavePosterExtensions(groups: seq<Group>) {
    forall k :: 0 <= k < |groups| ==> AllHavePosterExtension(groups[k].entries)
  }

  /** `sent` are the messages for the first groups, in order, each to a
      valid address and accepted by the transport. */
  predicate SentInOrder(
    config: MailConfig, today: Date, all: seq<SeriesEntry>, groups: seq<Group>,
    validAddress: string -> bool, send: Message -> Outcome<Error>, sent: seq<Message>)
    requires AllHavePosterExtension(all) && GroupsHavePosterExtensions(groups)
  {
    && |sent| <= |groups|
    && forall k :: 0 <= k < |sent| ==>
         && validAddress(groups[k].user.email)
         && sent[k] == ComposeMessage(config, today, all, groups[k])
         && send(sent[k]).Pass?
  }

  /** The send loop: for each group in turn, check the recipient address,
      compose, send; the first failure ends the loop. */
  function SendAll(
    config: MailConfig, today: Date, all: seq<SeriesEntry>, groups: seq<Group>,
    validAddress: string -> bool, send: Message -> Outcome<Error>)
    : (n: Notification)
    requires AllHavePosterExtension(all) && GroupsHavePosterExtensions(groups)
    ensures SentInOrder(config, today, all, groups, validAddress, send, n.sent)
    ensures n.result.Pass? <==> |n.sent| == |groups|
  {
    if |groups| == 0 then Notification(Pass, [])
    else
      var g := groups[0];
      if !validAddress(g.user.email) then Notification(Fail(InvalidAddress(g.user.email)), [])
      else
        var m := ComposeMessage(config, today, all, g);
        match send(m)
        case Fail(e) => Notification(Fail(e), [])
        case Pass =>
          var rest := SendAll(config, today, all, groups[1..], validAddress, send);
          SentInOrderCons(config, today, all, groups, validAddress, send, rest.sent);
          Notification(rest.result, [m] + rest.sent)
  }

  /** A failed run stops at the first group not sent: either its address is
      rejected or the transport's failure is the run's failure. */
  lemma {:induction false} SendAllStopsAtFailure(
    config: MailConfig, today: Date, all: seq<SeriesEntry>, groups: seq<Group>,
    validAddress: string -> bool, send: Message -> Outcome<Error>)
    requires AllHavePosterExtension(all) && GroupsHavePosterExtensions(groups)
    requires SendAll(config, today, all, groups, validAddress, send).result.Fail?
    ensures var n := SendAll(config, today, all, groups, validAddress, send);
      var g := groups[|n.sent|];
      if !validAddress(g.user.email) then n.result.error == InvalidAddress(g.user.email)
      else send(ComposeMessage(config, today, all, g)) == n.result
  {
    var g := groups[0];
    if validAddress(g.user.email) && send(ComposeMessage(config, today, all, g)).Pass? {
      var rest := SendAll(config, today, all, groups[1..], validAddress, send);
      var n := SendAll(config, today, all, groups, validAddress, send);
      assert n.result == rest.result && |n.sent| == |rest.sent| + 1;
      SendAllStopsAtFailure(config, today, all, groups[1..], validAddress, send);
      assert groups[1..][|rest.sent|] == groups[|rest.sent| + 1];
    }
  }

  lemma SentInOrderCons(
    config: MailConfig, today: Date, all: seq<SeriesEntry>, groups: seq<Group>,
    validAddress: string -> bool, send: Message -> Outcome<Error>, rest: seq<Message>)
    requires AllHavePosterExtension(all) && GroupsHavePosterExtensions(groups) && |groups| > 0
    requires validAddress(groups[0].user.email)
    requires send(ComposeMessage(config, today, all, groups[0])).Pass?
    requires SentInOrder(config, today, all, groups[1..], validAddress, send, rest)
    ensures SentInOrder(config, today, all, groups, validAddress, send, [ComposeMessage(config, today, all, groups[0])] + rest)
  {
    var sent := [ComposeMessage(config, today, all, groups[0])] + rest;
    forall k | 0 <= k < |sent|
      ensures && validAddress(groups[k].user.email)
              && sent[k] == ComposeMessage(config, today, all, groups[k])
              && send(sent[k]).Pass?
    {
      if k > 0 {
        assert sent[k] == rest[k - 1];
        assert groups[1..][k - 1] == groups[k];
      }
    }
  }

  const MissingPosterExtension: Error := Panic("called `Option::unwrap()` on a `None` value")

  /** The collaborators of a notification run. */
  datatype Mailer = Mailer(
    config: MailConfig,
    setup: Outcome<Error>,
    validAddress: string -> bool,
    today: Date,
    send: Message -> Outcome<Error>)

  /** `send_email_notifications`. The order of failure checks is the
      source's: posters, subscriber lookups, transport setup, sender address,
      then per message (the body is rendered first, which panics if any
      changed entry's poster path has no extension; then the recipient
      address; then the transport). */
  function SendNotifications(
    changes: seq<(Series, SeriesDetailsChanges)>,
    posterById: int -> Result<Option<Poster>, Error>,
    subscribersOf: SubscriberLookup,
    mailer: Mailer)
    : (n: Notification)
    ensures SeriesChangesToEntries(changes, posterById).Err? ==>
      n == Notification(Fail(SeriesChangesToEntries(changes, posterById).error), [])
    ensures SeriesChangesToEntries(changes, posterById).Ok? ==>
      var entries := SeriesChangesToEntries(changes, posterById).value;
      SubscriberLists(entries, subscribersOf).Err? ==>
        n == Notification(Fail(SubscriberLists(entries, subscribersOf).error), [])
  {
    match SeriesChangesToEntries(changes, posterById)
    case Err(e) => Notification(Fail(e), [])
    case Ok(entries) =>
      match SubscriberLists(entries, subscribersOf)
      case Err(e) => Notification(Fail(e), [])
      case Ok(lists) => Deliver(entries, lists, mailer)
  }

  /** The part of `send_email_notifications` after the lookups: group, set up
      the transport, then send. */
  function Deliver(entries: seq<SeriesEntry>, lists: seq<seq<User>>, mailer: Mailer): (n: Notification)
    requires |lists| == |entries|
    ensures mailer.setup.Fail? ==> n == Notification(mailer.setup, [])
    ensures mailer.setup.Pass? && !mailer.validAddress(mailer.config.fromAddress) ==>
      n == Notification(Fail(InvalidAddress(mailer.config.fromAddress)), [])
    ensures n.sent != [] ==> AllHavePosterExtension(entries)
    ensures GroupPairs(Pairs(entries, lists)) == [] && mailer.setup.Pass? && mailer.validAddress(mailer.config.fromAddress) ==>
      n == Notification(Pass, [])
    ensures && GroupPairs(Pairs(entries, lists)) != [] && !AllHavePosterExtension(entries)
            && mailer.setup.Pass? && mailer.validAddress(mailer.config.fromAddress) ==>
      n == Notification(Fail(MissingPosterExtension), [])
  {
    var groups := GroupPairs(Pairs(entries, lists));
    if mailer.setup.Fail? then Notification(mailer.setup, [])
    else if !mailer.validAddress(mailer.config.fromAddress) then
      Notification(Fail(InvalidAddress(mailer.config.fromAddress)), [])
    else if |groups| == 0 then Notification(Pass, [])
    else if !AllHavePosterExtension(entries) then Notification(Fail(MissingPosterExtension), [])
    else
      GroupsHaveExtensions(entries, lists);
      SendAll(mailer.config, mailer.today, entries, groups, mailer.validAddress, mailer.send)
  }

  lemma GroupsHaveExtensions(entries: seq<SeriesEntry>, lists: seq<seq<User>>)
    requires |lists| == |entries| && AllHavePosterExtension(entries)
    ensures GroupsHavePosterExtensions(GroupPairs(Pairs(entries, lists)))
  {
    var gs := GroupPairs(Pairs(entries, lists));
    forall k, i | 0 <= k < |gs| && 0 <= i < |gs[k].entries| ensures HasPosterExtension(gs[k].entries[i]) {
      GroupEntriesAreEntries(entries, lists, k, i);
    }
  }

  /** A successful run sends exactly one message to every subscriber of at
      least one changed series and to nobody else, users in order of first
      appearance, each with the posters of exactly their own entries and a
      body over all changed entries. */
  lemma DeliveredOncePerSubscriber(
    changes: seq<(Series, SeriesDetailsChanges)>,
    posterById: int -> Result<Option<Poster>, Error>,
    subscribersOf: SubscriberLookup,
    mailer: Mailer)
    requires SendNotifications(changes, posterById, subscribersOf, mailer).result.Pass?
    ensures SeriesChangesToEntries(changes, posterById).Ok?
    ensures var entries := SeriesChangesToEntries(changes, posterById).value;
      SubscriberLists(entries, subscribersOf).Ok?
    ensures var entries := SeriesChangesToEntries(changes, posterById).value;
      var lists := SubscriberLists(entries, subscribersOf).value;
      var groups := GroupPairs(Pairs(entries, lists));
      groups != [] ==> AllHavePosterExtension(entries) && GroupsHavePosterExtensions(groups)
    ensures var entries := SeriesChangesToEntries(changes, posterById).value;
      var lists := SubscriberLists(entries, subscribersOf).value;
      var groups := GroupPairs(Pairs(entries, lists));
      var sent := SendNotifications(changes, posterById, subscribersOf, mailer).sent;
      && |sent| == |groups|
      && (forall k1, k2 :: 0 <= k1 < k2 < |groups| ==> groups[k1].user.id != groups[k2].user.id)
      && (forall k :: 0 <= k < |groups| ==>
            && groups[k].entries == SubscribedEntries(entries, lists, groups[k].user.id)
            && sent[k] == ComposeMessage(mailer.config, mailer.today, entries, groups[k])
            && sent[k].toAddress == groups[k].user.email
            && sent[k].body == RenderBlocks(entries)
            && |sent[k].attachments| == |groups[k].entries|)
      && (forall uid :: (exists k :: 0 <= k < |groups| && groups[k].user.id == uid)
                        <==> SubscribedEntries(entries, lists, uid) != [])
  {
    var entries := SeriesChangesToEntries(changes, posterById).value;
    var lists := SubscriberLists(entries, subscribersOf).value;
    DeliveredMessages(entries, lists, mailer);
    GroupsAreSubscriptions(entries, lists);
  }

  /** A successful delivery sends one message per group, each addressed to
      the group's user with a body over all entries and the group's posters. */
  lemma DeliveredMessages(entries: seq<SeriesEntry>, lists: seq<seq<User>>, mailer: Mailer)
    requires |lists| == |entries|
    requires Deliver(entries, lists, mailer).result.Pass?
    ensures var groups := GroupPairs(Pairs(entries, lists));
      groups != [] ==> AllHavePosterExtension(entries) && GroupsHavePosterExtensions(groups)
    ensures var groups := GroupPairs(Pairs(entries, lists));
      var sent := Deliver(entries, lists, mailer).sent;
      && |sent| == |groups|
      && forall k :: 0 <= k < |groups| ==>
           && sent[k] == ComposeMessage(mailer.config, mailer.today, entries, groups[k])
           && sent[k].toAddress == groups[k].user.email
           && sent[k].body == RenderBlocks(entries)
           && |sent[k].attachments| == |groups[k].entries|
  {
    var groups := GroupPairs(Pairs(entries, lists));
    if |groups| > 0 {
      GroupsHaveExtensions(entries, lists);
    }
  }

  /** The body refers to the poster of every changed entry, but a subscriber
      only receives the posters of their own entries: the reference to a
      poster of a series they do not follow has no matching attachment. */
  lemma BodyRefersToUnattachedPoster(config: MailConfig, today: Date, all: seq<SeriesEntry>, g: Group, i: int)
    requires AllHavePosterExtension(all) && AllHavePosterExtension(g.entries)
    requires 0 <= i < |all|
    requires forall j :: 0 <= j < |g.entries| ==> g.entries[j].series.details.id != all[i].series.details.id
    ensures var m := ComposeMessage(config, today, all, g);
      && m.body[i].posterUri == PosterAttachmentUri(all[i])
      && forall j :: 0 <= j < |m.attachments| ==> "cid:" + m.attachments[j].contentId != m.body[i].posterUri
  {
    var m := ComposeMessage(config, today, all, g);
    assert m.body[i] == RenderEntry(all[i], i == |all| - 1);
    forall j | 0 <= j < |m.attachments| ensures "cid:" + m.attachments[j].contentId != PosterAttachmentUri(all[i]) {
      PosterAttachmentUrisDistinct(g.entries[j], all[i]);
    }
  }

  /** Every attachment a subscriber receives is referred to by the body. */
  lemma AttachmentsAreReferenced(config: MailConfig, today: Date, all: seq<SeriesEntry>, g: Group, j: int)
    requires AllHavePosterExtension(all) && AllHavePosterExtension(g.entries)
    requires forall x :: x in g.entries ==> x in all
    requires 0 <= j < |g.entries|
    ensures var m := ComposeMessage(config, today, all, g);
      exists i :: 0 <= i < |all| && m.body[i].posterUri == "cid:" + m.attachments[j].contentId
  {
    var m := ComposeMessage(config, today, all, g);
    assert g.entries[j] in all;
    var i :| 0 <= i < |all| && all[i] == g.entries[j];
    assert m.body[i].posterUri == PosterAttachmentUri(all[i]);
  }
}
