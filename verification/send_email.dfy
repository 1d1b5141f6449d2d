/** The `POST /send-email` route: from the request's `contact` field and the
    process configuration it either rejects the request with 400, or builds an
    admin notice (always) and a user confirmation (only for email-shaped
    contacts), hands them to the mail transport, and answers 200 when every send
    succeeded and 500 otherwise.

    The mail transport is an oracle: `transport(m)` is the outcome of sending `m`. */
module SendEmail {
  import opened EmailShape

  datatype Option<+T> = None | Some(value: T)

  /** The two environment variables the route reads, `EMAIL_USER` and
      `ADMIN_EMAIL`; `None` when unset. The route never checks them. */
  datatype Config = Config(emailUser: Option<string>, adminEmail: Option<string>)

  /** The mail options the route hands to the transport. `from` and `to` are
      `None` exactly when the variable they are read from is unset. */
  datatype MailOptions = MailOptions(from: Option<string>, to: Option<string>, subject: string, html: string)

  /** The JSON bodies the route answers with: `{message: …}` or `{error: …}`. */
  datatype JsonBody = MessageBody(message: string) | ErrorBody(error: string)

  datatype Response = Response(status: int, body: JsonBody)

  /** What the route decides before anything is sent. */
  datatype Plan = Reject(response: Response) | Dispatch(messages: seq<MailOptions>)

  /** The outcome of one `sendMail` call; the reason of a failure is whatever the
      transport rejected with. */
  datatype SendResult = Delivered | Failed(reason: string)

  /** One request as seen from outside: the messages handed to the transport and
      the response sent back. */
  datatype Exchange = Exchange(attempted: seq<MailOptions>, response: Response)

  const ContactRequired := "Contact information is required"
  const SentOk := "Email sent successfully"
  const SendFailed := "Failed to send email"
  const AdminSubject := "Account Deletion Request - IOTIQ"
  const UserSubject := "Account Deletion Request Received - IOTIQ"

  /** The admin notice's HTML around the contact, with the styling left out. */
  const AdminHtmlHead := "<div><h2>Account Deletion Request</h2><p>A user has requested account deletion.</p><div><strong>Contact Information:</strong> "
  const AdminHtmlTail := "</div><p>Please process this request according to company policy.</p><hr><p>This email was sent from the IOTIQ account deletion system.</p></div>"

  /** The user confirmation's HTML, with the styling left out; it does not mention the contact. */
  const UserHtml := "<div><h2>Account Deletion Request Received</h2><p>We have received your request to delete your IOTIQ account.</p><div><strong>Important:</strong> This action cannot be undone. All your data will be permanently deleted.</div><p>Our support team will contact you within 24-48 hours to confirm and process your request.</p><p>If you did not make this request, please contact us immediately.</p><hr><p>IOTIQ Support Team<br>This is an automated message. Please do not reply to this email.</p></div>"

  /** JavaScript truthiness of the `contact` field: a missing field and the empty
      string are falsy, every other string (whitespace included) is truthy. */
  predicate Present(contact: Option<string>)
  {
    contact.Some? && contact.value != ""
  }

  /** `part` occurs in `s` starting at index `k`. */
  predicate OccursAt(s: string, part: string, k: int)
  {
    0 <= k && k + |part| <= |s| && s[k..k + |part|] == part
  }

  /** The admin notice: the raw contact is interpolated into the HTML, unescaped. */
  function AdminNotice(contact: string, cfg: Config): (m: MailOptions)
    ensures m.from == cfg.emailUser && m.to == cfg.adminEmail && m.subject == AdminSubject
    ensures OccursAt(m.html, contact, |AdminHtmlHead|)
    ensures m.html[..|AdminHtmlHead|] == AdminHtmlHead
    ensures m.html[|AdminHtmlHead| + |contact|..] == AdminHtmlTail
  {
    var html := AdminHtmlHead + contact + AdminHtmlTail;
    assert html[..|AdminHtmlHead|] == AdminHtmlHead;
    assert html[|AdminHtmlHead|..|AdminHtmlHead| + |contact|] == contact;
    assert html[|AdminHtmlHead| + |contact|..] == AdminHtmlTail;
    MailOptions(cfg.emailUser, cfg.adminEmail, AdminSubject, html)
  }

  /** The confirmation sent back to an email-shaped contact. */
  function UserConfirmation(contact: string, cfg: Config): (m: MailOptions)
    ensures m.from == cfg.emailUser && m.to == Some(contact) && m.subject == UserSubject
    ensures m.html == UserHtml
  {
    MailOptions(cfg.emailUser, Some(contact), UserSubject, UserHtml)
  }

  /** The validation and message construction of the route, up to the sends. */
  function PlanFor(contact: Option<string>, cfg: Config): (p: Plan)
    ensures p.Reject? <==> !Present(contact)
    ensures p.Reject? ==> p.response == Response(400, ErrorBody(ContactRequired))
    ensures p.Dispatch? ==> |p.messages| == (if MatchesPattern(contact.value) then 2 else 1)
    ensures p.Dispatch? ==>
      && p.messages[0].to == cfg.adminEmail
      && p.messages[0].subject == AdminSubject
      && OccursAt(p.messages[0].html, contact.value, |AdminHtmlHead|)
    ensures p.Dispatch? && |p.messages| == 2 ==>
      && p.messages[1].to == Some(contact.value)
      && p.messages[1].subject == UserSubject
      && p.messages[1].html == UserHtml
    ensures p.Dispatch? ==> forall m :: m in p.messages ==> m.from == cfg.emailUser
  {
    if !Present(contact) then
      Reject(Response(400, ErrorBody(ContactRequired)))
    else
      var admin := AdminNotice(contact.value, cfg);
      if IsEmail(contact.value) then
        Dispatch([admin, UserConfirmation(contact.value, cfg)])
      else
        Dispatch([admin])
  }

  /** The messages a plan hands to the transport. */
  function Messages(p: Plan): seq<MailOptions>
  {
    match p
    case Reject(_) => []
    case Dispatch(messages) => messages
  }

  /** `Promise.all` over outcomes that have all been produced: fulfilled when every
      send is, otherwise rejected with the failure of one of them. */
  function JoinAll(outcomes: seq<SendResult>): (r: SendResult)
    ensures r.Delivered? <==> forall i :: 0 <= i < |outcomes| ==> outcomes[i].Delivered?
    ensures r.Failed? ==> r in outcomes
  {
    if |outcomes| == 0 then Delivered
    else if outcomes[0].Failed? then outcomes[0]
    else JoinAll(outcomes[1..])
  }

  /** The response the route sends once every send has settled. */
  function Respond(outcomes: seq<SendResult>): (r: Response)
    ensures r.status == 200 <==> forall i :: 0 <= i < |outcomes| ==> outcomes[i].Delivered?
    ensures r.status == 200 ==> r.body == MessageBody(SentOk)
    ensures r.status != 200 ==> r == Response(500, ErrorBody(SendFailed))
  {
    match JoinAll(outcomes)
    case Delivered => Response(200, MessageBody(SentOk))
    case Failed(_) => Response(500, ErrorBody(SendFailed))
  }

  /** The order in which the sends settle does not change the response. */
  lemma RespondIgnoresOrder(a: seq<SendResult>, b: seq<SendResult>)
    requires multiset(a) == multiset(b)
    ensures Respond(a) == Respond(b)
  {
    if Respond(a).status == 200 {
      forall i | 0 <= i < |b| ensures b[i].Delivered? {
        assert b[i] in multiset(a);
      }
    } else if Respond(b).status == 200 {
      forall i | 0 <= i < |a| ensures a[i].Delivered? {
        assert a[i] in multiset(b);
      }
    }
  }

  /** The whole route: validate, build, send every planned message, answer. */
  function Handle(contact: Option<string>, cfg: Config, transport: MailOptions -> SendResult): (x: Exchange)
    ensures !Present(contact) ==> x == Exchange([], Response(400, ErrorBody(ContactRequired)))
    ensures Present(contact) ==> x.attempted == PlanFor(contact, cfg).messages
    ensures x.response.status == 200 <==>
      Present(contact) && forall i :: 0 <= i < |x.attempted| ==> transport(x.attempted[i]).Delivered?
    ensures x.response.status == 200 ==> x.response.body == MessageBody(SentOk)
    ensures x.response.status == 500 ==> x.response.body == ErrorBody(SendFailed)
    ensures x.response.status == 400 <==> !Present(contact)
    ensures Present(contact) && x.response.status != 200 ==>
      x.response == Response(500, ErrorBody(SendFailed))
    ensures x.response.status in {200, 400, 500}
  {
    match PlanFor(contact, cfg)
    case Reject(response) => Exchange([], response)
    case Dispatch(messages) =>
      var outcomes := seq(|messages|, i requires 0 <= i < |messages| => transport(messages[i]));
      assert forall i :: 0 <= i < |messages| ==> outcomes[i] == transport(messages[i]);
      Exchange(messages, Respond(outcomes))
  }

  /** A contact made only of whitespace is truthy, so it is accepted; it is not
      email-shaped, so only the admin notice goes out. */
  lemma WhitespaceContactNotTrimmed(contact: string, cfg: Config)
    requires contact != []
    requires forall i :: 0 <= i < |contact| ==> IsSpace(contact[i])
    ensures PlanFor(Some(contact), cfg) == Dispatch([AdminNotice(contact, cfg)])
  {
  }

  /** An email-shaped contact: both messages are handed to the transport whatever
      either send's outcome, and the request succeeds only if both are delivered. */
  lemma EmailContactSendsTwo(contact: string, cfg: Config, transport: MailOptions -> SendResult)
    requires MatchesPattern(contact)
    ensures var x := Handle(Some(contact), cfg, transport);
      && x.attempted == [AdminNotice(contact, cfg), UserConfirmation(contact, cfg)]
      && (x.response == Response(200, MessageBody(SentOk)) <==>
          transport(x.attempted[0]).Delivered? && transport(x.attempted[1]).Delivered?)
      && (transport(x.attempted[0]).Failed? || transport(x.attempted[1]).Failed? ==>
          x.response == Response(500, ErrorBody(SendFailed)))
  {
  }

  /** Any other truthy contact (a phone number, say): only the admin notice is
      handed to the transport, and its outcome alone decides the response. */
  lemma OtherContactSendsOne(contact: string, cfg: Config, transport: MailOptions -> SendResult)
    requires contact != [] && !MatchesPattern(contact)
    ensures var x := Handle(Some(contact), cfg, transport);
      && x.attempted == [AdminNotice(contact, cfg)]
      && (transport(AdminNotice(contact, cfg)).Delivered? ==> x.response == Response(200, MessageBody(SentOk)))
      && (transport(AdminNotice(contact, cfg)).Failed? ==> x.response == Response(500, ErrorBody(SendFailed)))
  {
  }

  /** An empty body: 400 and nothing is sent, whatever the transport would do. */
  lemma MissingContactScenario(cfg: Config, transport: MailOptions -> SendResult)
    ensures Handle(None, cfg, transport) == Exchange([], Response(400, ErrorBody(ContactRequired)))
    ensures Handle(Some(""), cfg, transport) == Exchange([], Response(400, ErrorBody(ContactRequired)))
  {
  }

  /** Every message handed to the transport over a series of requests, in order. */
  function SentOver(contacts: seq<Option<string>>, cfg: Config): seq<MailOptions>
  {
    if |contacts| == 0 then [] else Sends(contacts[0], cfg) + SentOver(contacts[1..], cfg)
  }

  /** The messages one request hands to the transport. */
  function Sends(contact: Option<string>, cfg: Config): seq<MailOptions>
  {
    Messages(PlanFor(contact, cfg))
  }

  /** The route keeps no state between requests: what a series of requests sends is
      what its parts send, so a repeated request sends its messages again. */
  lemma {:induction false} SentOverConcat(a: seq<Option<string>>, b: seq<Option<string>>, cfg: Config)
    ensures SentOver(a + b, cfg) == SentOver(a, cfg) + SentOver(b, cfg)
  {
    if |a| > 0 {
      var first := Sends(a[0], cfg);
      assert (a + b)[0] == a[0];
      assert (a + b)[1..] == a[1..] + b;
      assert SentOver(a + b, cfg) == first + SentOver(a[1..] + b, cfg);
      SentOverConcat(a[1..], b, cfg);
      assert SentOver(a, cfg) == first + SentOver(a[1..], cfg);
      assert first + (SentOver(a[1..], cfg) + SentOver(b, cfg))
          == (first + SentOver(a[1..], cfg)) + SentOver(b, cfg);
    } else {
      assert a + b == b;
    }
  }

  /** Number of admin notices among `ms`. */
  function AdminNotices(ms: seq<MailOptions>): nat
  {
    if |ms| == 0 then 0 else (if ms[0].subject == AdminSubject then 1 else 0) + AdminNotices(ms[1..])
  }

  /** Number of requests whose contact is truthy. */
  function Accepted(contacts: seq<Option<string>>): nat
  {
    if |contacts| == 0 then 0 else (if Present(contacts[0]) then 1 else 0) + Accepted(contacts[1..])
  }

  lemma {:induction false} AdminNoticesConcat(a: seq<MailOptions>, b: seq<MailOptions>)
    ensures AdminNotices(a + b) == AdminNotices(a) + AdminNotices(b)
  {
    if |a| > 0 {
      assert (a + b)[1..] == a[1..] + b;
      AdminNoticesConcat(a[1..], b);
    } else {
      assert a + b == b;
    }
  }

  /** Every accepted request sends exactly one admin notice, whatever came before. */
  lemma {:induction false} OneAdminNoticePerRequest(contacts: seq<Option<string>>, cfg: Config)
    ensures AdminNotices(SentOver(contacts, cfg)) == Accepted(contacts)
  {
    if |contacts| > 0 {
      var p := PlanFor(contacts[0], cfg);
      AdminNoticesConcat(Sends(contacts[0], cfg), SentOver(contacts[1..], cfg));
      OneAdminNoticePerRequest(contacts[1..], cfg);
      if p.Dispatch? {
        var ms := p.messages;
        assert ms[1..] == [] || ms[1..] == [ms[1]];
        assert UserSubject != AdminSubject;
      }
    }
  }

  /** Sending the same truthy contact twice sends two admin notices: nothing is
      deduplicated between requests. */
  lemma RepeatedRequestNotifiesTwice(contact: Option<string>, cfg: Config)
    requires Present(contact)
    ensures AdminNotices(SentOver([contact, contact], cfg)) == 2
    ensures SentOver([contact, contact], cfg) == Sends(contact, cfg) + Sends(contact, cfg)
  {
    OneAdminNoticePerRequest([contact, contact], cfg);
    assert [contact, contact][1..] == [contact];
    assert [contact][1..] == [];
    assert Accepted([contact]) == 1 + Accepted([]);
    assert Accepted([contact, contact]) == 1 + Accepted([contact]);
    SentOverConcat([contact], [contact], cfg);
    assert [contact] + [contact] == [contact, contact];
    assert SentOver([contact], cfg) == Sends(contact, cfg) + SentOver([], cfg);
  }
}
