/** The mail side of the forum (forum/tasks.py): the signed reply-to address and its decoder,
    `has_subtag`, the extraction of a new post from an incoming mail, and the chunking of the
    recipients of a new post.

    The digest of a uid (the MD5 of its signature with the application's secret key) is an
    uninterpreted function; HTML sanitising (`validate_html`), the blockquote clean-up
    (`clean_html`) and the payload decoding are parameters or inputs. Sending mail, the
    Celery queues and the database are left out. */
module ForumMail {
  import opened Wrappers
  import opened Text

  datatype MailError = ValueError | AssertionError

  /** The longest local part of an email address. */
  const MaxLocalPart: nat := 64

  /** The two length checks: the one in the code, and the one its purpose calls for (see
      `BuildLocalPart`). */
  datatype Check = AsWritten | Corrected

  // ---------------------------------------------------------------------------
  // build_local_part / build_reply_email_address
  // ---------------------------------------------------------------------------

  /** `name + "+" + uid + "-" + digest`, before any truncation. */
  function FullLocalPart(name: string, uid: string, digest: string -> string): string {
    name + "+" + uid + "-" + digest(uid)
  }

  /** `build_local_part`: the full local part when it fits in 64 characters; otherwise its
      first 64 characters, unless even `name + "+" + uid` is too long, which is a ValueError.
      As written the check lets `name + "+" + uid` fill all 64 characters, which cuts the
      "-" and the whole digest; corrected, it must leave room for the "-". */
  function BuildLocalPart(name: string, uid: string, digest: string -> string, check: Check)
    : (r: Result<string, MailError>)
    ensures r.Success? <==> (if check == AsWritten then |name| + 1 + |uid| <= MaxLocalPart
                            else |name| + 1 + |uid| < MaxLocalPart)
    ensures r.Success? ==> |r.value| <= MaxLocalPart
    ensures r.Success? ==> r.value <= FullLocalPart(name, uid, digest)
    ensures r.Success? ==> name + "+" + uid <= r.value
    ensures r.Success? && |FullLocalPart(name, uid, digest)| <= MaxLocalPart ==> r.value == FullLocalPart(name, uid, digest)
    ensures r.Failure? ==> r.error == ValueError
  {
    var full := FullLocalPart(name, uid, digest);
    assert |full| == |name| + 1 + |uid| + 1 + |digest(uid)|;
    assert full[..|name| + 1 + |uid|] == name + "+" + uid;
    if |full| > MaxLocalPart then
      var tooLong := if check == AsWritten then |full| - |digest(uid)| - 1 > MaxLocalPart
                     else |full| - |digest(uid)| - 1 >= MaxLocalPart;
      if tooLong then Failure(ValueError) else Success(full[..MaxLocalPart])
    else Success(full)
  }

  /** The uid of a reply address: "P", the locale, the thread id and the user id, joined
      with "-". */
  function ReplyUid(locale: string, threadId: nat, userId: nat): string {
    Join(["P", locale, NatToString(threadId), NatToString(userId)], '-')
  }

  /** `build_reply_email_address`: the signed local part for the reply uid, "@" and the
      domain. */
  function BuildReplyEmailAddress(name: string, locale: string, threadId: nat, userId: nat, domain: string,
                                  digest: string -> string, check: Check): (r: Result<string, MailError>)
    ensures r.Success? <==> BuildLocalPart(name, ReplyUid(locale, threadId, userId), digest, check).Success?
    ensures r.Success? ==> r.value == BuildLocalPart(name, ReplyUid(locale, threadId, userId), digest, check).value + "@" + domain
  {
    var local :- BuildLocalPart(name, ReplyUid(locale, threadId, userId), digest, check);
    Success(local + "@" + domain)
  }

  // ---------------------------------------------------------------------------
  // extract_email_destination
  // ---------------------------------------------------------------------------

  /** The index of the first line break at or after `k`, or the length. */
  function LineEnd(s: string, k: nat): (e: nat)
    requires k <= |s|
    ensures k <= e <= |s| && '\n' !in s[k..e]
  {
    match IndexOf(s[k..], '\n')
    case None => |s|
    case Some(i) =>
      assert s[k..k + i] == s[k..][..i];
      k + i
  }

  /** `re.search("<(.*)>", s)` tried at index `i`: a "<" there, and a ">" later on the same
      line; the group runs up to the last such ">". */
  function AngleAt(s: string, i: nat): (r: Option<string>)
    requires i < |s|
    ensures s[i] != '<' ==> r.None?
  {
    if s[i] != '<' then None
    else
      match LastIndexOf(s[i + 1..LineEnd(s, i + 1)], '>')
      case None => None
      case Some(j) => Some(s[i + 1..i + 1 + j])
  }

  /** `re.search("<(.*)>", s[i..])`: the group of the leftmost match, if any. */
  function AngleSearch(s: string, i: nat): (r: Option<string>)
    requires i <= |s|
    ensures '<' !in s[i..] ==> r.None?
    decreases |s| - i
  {
    if i == |s| then None
    else
      var here := AngleAt(s, i);
      if here.Some? then here
      else
        assert s[i + 1..] == s[i..][1..];
        AngleSearch(s, i + 1)
  }

  /** `extract_email_destination`: the address between "<" and ">" if there is one; the
      local part before the last "@"; the name before the last "+" and the uid before the
      last "-" of the rest (a ValueError when either is missing). The local part must be the
      one `build_local_part` gives for that name and uid, or the signature is invalid
      (ValueError); the uid's first "-"-separated field must be "P" (AssertionError), and the
      others are returned. */
  function ExtractEmailDestination(address: string, digest: string -> string, check: Check)
    : (r: Result<seq<string>, MailError>)
    ensures r.Success? ==>
              var local := RSplit1(AngleSearch(address, 0).GetOr(address), '@').0;
              var ident := RSplit1(local, '+');
              ident.1.Some? && BuildLocalPart(ident.0, RSplit1(ident.1.value, '-').0, digest, check) == Success(local)
  {
    DecodeLocal(RSplit1(AngleSearch(address, 0).GetOr(address), '@').0, digest, check)
  }

  /** The decoding of a local part: name, uid, signature check and the uid's fields. */
  function DecodeLocal(local: string, digest: string -> string, check: Check): (r: Result<seq<string>, MailError>)
    ensures r.Success? ==>
              var ident := RSplit1(local, '+');
              ident.1.Some? && BuildLocalPart(ident.0, RSplit1(ident.1.value, '-').0, digest, check) == Success(local)
  {
    var ident := RSplit1(local, '+');
    if ident.1.None? then Failure(ValueError)
    else
      var uid := RSplit1(ident.1.value, '-');
      if uid.1.None? then Failure(ValueError)
      else CheckSigned(ident.0, uid.0, local, digest, check)
  }

  /** The signature check and the uid's fields. */
  function CheckSigned(name: string, uid: string, local: string, digest: string -> string, check: Check)
    : (r: Result<seq<string>, MailError>)
    ensures r.Success? ==> BuildLocalPart(name, uid, digest, check) == Success(local)
    ensures r.Success? ==> Split(uid, '-')[0] == "P" && r.value == Split(uid, '-')[1..]
    ensures BuildLocalPart(name, uid, digest, check) == Success(local) && Split(uid, '-')[0] == "P" ==> r.Success?
  {
    var signed :- BuildLocalPart(name, uid, digest, check);
    if local != signed then Failure(ValueError)
    else
      var values := Split(uid, '-');
      if values[0] != "P" then Failure(AssertionError)
      else Success(values[1..])
  }

  /** Hexadecimal text, as an MD5 hex digest is. */
  predicate IsHex(s: string) {
    forall c :: c in s ==> IsDigit(c) || 'a' <= c <= 'f'
  }

  /** A field of the address that the decoder's separators and the "<…>" search cannot
      confuse. */
  predicate Plain(s: string) {
    '<' !in s && '@' !in s && '+' !in s && '-' !in s
  }

  /** The local part `build_local_part` returns is the name, "+", the uid, "-" and a prefix
      of the digest, whenever the name and uid leave room for the "-". */
  lemma LocalPartShape(name: string, uid: string, digest: string -> string, check: Check)
    requires |name| + 1 + |uid| < MaxLocalPart
    ensures var r := BuildLocalPart(name, uid, digest, check);
            r.Success? && exists k :: 0 <= k <= |digest(uid)| && r.value == name + "+" + uid + "-" + digest(uid)[..k]
  {
    var full := FullLocalPart(name, uid, digest);
    var r := BuildLocalPart(name, uid, digest, check);
    var h := |name| + 1 + |uid| + 1;
    assert full == (name + "+" + uid + "-") + digest(uid);
    var k := |r.value| - h;
    assert 0 <= k <= |digest(uid)|;
    assert r.value == full[..h + k];
    assert full[..h + k] == name + "+" + uid + "-" + digest(uid)[..k];
  }

  /** A reply address decodes to the locale, the thread id and the user id it was built
      from, whenever the name and the uid leave room for the "-" in the local part (always
      so with the corrected check). The name, locale and domain must not contain the
      decoder's separators. */
  lemma ReplyAddressRoundTrip(name: string, locale: string, threadId: nat, userId: nat, domain: string,
                              digest: string -> string, check: Check)
    requires IsHex(digest(ReplyUid(locale, threadId, userId))) && Plain(locale) && '<' !in name && '<' !in domain && '@' !in domain
    requires |name| + 1 + |ReplyUid(locale, threadId, userId)| < MaxLocalPart
    ensures var a := BuildReplyEmailAddress(name, locale, threadId, userId, domain, digest, check);
            a.Success?
            && ExtractEmailDestination(a.value, digest, check) == Success([locale, NatToString(threadId), NatToString(userId)])
  {
    var uid := ReplyUid(locale, threadId, userId);
    var fields := ["P", locale, NatToString(threadId), NatToString(userId)];
    ReplyUidFields(locale, threadId, userId);
    LocalPartShape(name, uid, digest, check);
    var local := BuildLocalPart(name, uid, digest, check).value;
    var k :| 0 <= k <= |digest(uid)| && local == name + "+" + uid + "-" + digest(uid)[..k];
    var d := digest(uid)[..k];
    assert forall c :: c in d ==> c in digest(uid);
    DecodeAddress(name, uid, d, domain, digest, check);
  }

  /** The reply uid splits back into its four fields, and has no "+" or "<". */
  lemma ReplyUidFields(locale: string, threadId: nat, userId: nat)
    requires Plain(locale)
    ensures var uid := ReplyUid(locale, threadId, userId);
            Split(uid, '-') == ["P", locale, NatToString(threadId), NatToString(userId)]
            && '+' !in uid && '<' !in uid
  {
    var t := NatToString(threadId);
    var u := NatToString(userId);
    DigitsExclude(t, '-');
    DigitsExclude(u, '-');
    DigitsExclude(t, '+');
    DigitsExclude(u, '+');
    DigitsExclude(t, '<');
    DigitsExclude(u, '<');
    var fields := ["P", locale, t, u];
    assert forall i :: 0 <= i < |fields| ==> PlainField(fields[i]);
    FieldsJoin(fields);
  }

  predicate PlainField(f: string) {
    '-' !in f && '+' !in f && '<' !in f
  }

  lemma FieldsJoin(fields: seq<string>)
    requires |fields| >= 1 && forall i :: 0 <= i < |fields| ==> PlainField(fields[i])
    ensures Split(Join(fields, '-'), '-') == fields && '+' !in Join(fields, '-') && '<' !in Join(fields, '-')
  {
    SplitJoin(fields, '-');
    JoinExcludes(fields, '-', '+');
    JoinExcludes(fields, '-', '<');
  }

  /** How the decoder reads `name + "+" + uid + "-" + sig + "@" + domain` when the separators
      it looks for are where the encoder put them. */
  lemma DecodeAddress(name: string, uid: string, sig: string, domain: string, digest: string -> string, check: Check)
    requires '+' !in uid && '+' !in sig && '-' !in sig && '@' !in domain
    requires '<' !in name && '<' !in uid && '<' !in sig && '<' !in domain
    ensures var local := name + "+" + uid + "-" + sig;
            ExtractEmailDestination(local + "@" + domain, digest, check) == CheckSigned(name, uid, local, digest, check)
  {
    var local := name + "+" + uid + "-" + sig;
    var addr := local + "@" + domain;
    assert '<' !in addr;
    assert addr[0..] == addr;
    assert AngleSearch(addr, 0).None?;
    assert addr == local + ['@'] + domain;
    RSplit1Append(local, '@', domain);
    DecodeLocalOf(name, uid, sig, digest, check);
  }

  lemma DecodeLocalOf(name: string, uid: string, sig: string, digest: string -> string, check: Check)
    requires '+' !in uid && '+' !in sig && '-' !in sig
    ensures var local := name + "+" + uid + "-" + sig;
            DecodeLocal(local, digest, check) == CheckSigned(name, uid, local, digest, check)
  {
    var local := name + "+" + uid + "-" + sig;
    var ident := uid + "-" + sig;
    assert local == name + ['+'] + ident;
    assert '+' !in ident;
    RSplit1Append(name, '+', ident);
    assert ident == uid + ['-'] + sig;
    RSplit1Append(uid, '-', sig);
  }

  /** A join of pieces that lack a character, with another separator, lacks it too. */
  lemma {:induction false} JoinExcludes(parts: seq<string>, sep: char, c: char)
    requires c != sep && forall i :: 0 <= i < |parts| ==> c !in parts[i]
    ensures c !in Join(parts, sep)
    decreases |parts|
  {
    if |parts| > 1 {
      JoinExcludes(parts[1..], sep, c);
    }
  }

  /** With the check as written, an address whose name and uid fill the 64 characters
      exactly is built, but loses its "-digest" and is then rejected by the decoder: here a
      55-character name with the uid "P-fr-3-4", whose last field the decoder takes for the
      signature. */
  lemma FullWidthReplyRejected()
    ensures var digest := (x: string) => "00000000000000000000000000000000";
            var name := seq(55, _ => 'a');
            var a := BuildReplyEmailAddress(name, "fr", 3, 4, "example.com", digest, AsWritten);
            a.Success? && ExtractEmailDestination(a.value, digest, AsWritten).Failure?
  {
    var digest := (x: string) => "00000000000000000000000000000000";
    var name := seq(55, _ => 'a');
    assert NatToString(3) == "3" && NatToString(4) == "4";
    assert ReplyUid("fr", 3, 4) == "P-fr-3-4";
    assert '<' !in name;
    FullWidthRejected(name, digest);
  }

  lemma FullWidthRejected(name: string, digest: string -> string)
    requires |name| == 55 && '<' !in name
    requires |digest("P-fr-3-4")| == 32 && |digest("P-fr-3")| > 0 && digest("P-fr-3")[0] != '4'
    ensures var a := BuildLocalPart(name, "P-fr-3-4", digest, AsWritten);
            a.Success? && ExtractEmailDestination(a.value + "@" + "example.com", digest, AsWritten).Failure?
  {
    var local := name + "+" + "P-fr-3" + "-" + "4";
    var full := FullLocalPart(name, "P-fr-3-4", digest);
    assert full == local + "-" + digest("P-fr-3-4");
    assert full[..64] == local;
    assert BuildLocalPart(name, "P-fr-3-4", digest, AsWritten) == Success(local);
    DecodeAddress(name, "P-fr-3", "4", "example.com", digest, AsWritten);
    var other := FullLocalPart(name, "P-fr-3", digest);
    assert other == name + "+" + "P-fr-3" + "-" + digest("P-fr-3");
    assert other[63] == digest("P-fr-3")[0];
    assert local[63] == '4';
  }

  /** With the corrected check, every address that is built decodes back. */
  lemma CorrectedReplyRoundTrip(name: string, locale: string, threadId: nat, userId: nat, domain: string,
                                digest: string -> string)
    requires IsHex(digest(ReplyUid(locale, threadId, userId))) && Plain(locale) && '<' !in name && '<' !in domain && '@' !in domain
    ensures var a := BuildReplyEmailAddress(name, locale, threadId, userId, domain, digest, Corrected);
            a.Success? ==>
              ExtractEmailDestination(a.value, digest, Corrected) == Success([locale, NatToString(threadId), NatToString(userId)])
  {
    if BuildReplyEmailAddress(name, locale, threadId, userId, domain, digest, Corrected).Success? {
      ReplyAddressRoundTrip(name, locale, threadId, userId, domain, digest, Corrected);
    }
  }

  // ---------------------------------------------------------------------------
  // has_subtag
  // ---------------------------------------------------------------------------

  /** `has_subtag`: a "+" in the text before the last "@" (the whole address without one). */
  function HasSubtag(address: string): (r: bool)
    ensures r ==> '+' in address
  {
    '+' in RSplit1(address, '@').0
  }

  /** `has_subtag` holds exactly when some "+" comes before an "@", or occurs at all in an
      address without "@". */
  lemma HasSubtagIff(address: string)
    ensures HasSubtag(address) <==>
              exists i :: 0 <= i < |address| && address[i] == '+' && ('@' !in address || '@' in address[i + 1..])
  {
    var local := RSplit1(address, '@').0;
    if '@' in address {
      var tail := RSplit1(address, '@').1.value;
      assert address == local + ['@'] + tail;
      if '+' in local {
        var i :| 0 <= i < |local| && local[i] == '+';
        assert address[i] == '+' && address[|local|] == '@';
        assert address[i + 1..][|local| - i - 1] == '@';
      }
      if exists i :: 0 <= i < |address| && address[i] == '+' && '@' in address[i + 1..] {
        var i :| 0 <= i < |address| && address[i] == '+' && '@' in address[i + 1..];
        var j :| 0 <= j < |address[i + 1..]| && address[i + 1..][j] == '@';
        assert address[i + 1 + j] == '@';
        assert local[i] == '+';
      }
    } else {
      if exists i :: 0 <= i < |address| && address[i] == '+' {
        var i :| 0 <= i < |address| && address[i] == '+';
        assert local[i] == '+';
      }
    }
  }

  /** Every reply address carries a subtag, so incoming replies are not skipped. */
  lemma ReplyAddressHasSubtag(name: string, locale: string, threadId: nat, userId: nat, domain: string,
                              digest: string -> string, check: Check)
    requires '@' !in domain
    ensures var a := BuildReplyEmailAddress(name, locale, threadId, userId, domain, digest, check);
            a.Success? ==> HasSubtag(a.value)
  {
    var a := BuildReplyEmailAddress(name, locale, threadId, userId, domain, digest, check);
    if a.Success? {
      var uid := ReplyUid(locale, threadId, userId);
      var local := BuildLocalPart(name, uid, digest, check).value;
      assert (name + "+" + uid)[|name|] == '+';
      assert local[|name|] == '+';
      assert a.value == local + ['@'] + domain;
      assert a.value[|name|] == '+';
      assert a.value[|name| + 1..][|local| - |name| - 1] == '@';
    }
  }

  // ---------------------------------------------------------------------------
  // extract_content / add_paragraph / process
  // ---------------------------------------------------------------------------

  /** `extract_content`: the payload before the last occurrence of the marker. When the
      marker does not occur, `rfind` gives -1 and the slice drops the last character. */
  function ExtractContent(payload: string, marker: string): (r: string)
    ensures Contains(payload, marker) ==>
              r <= payload && At(payload, marker, |r|) && forall j :: |r| < j ==> !At(payload, marker, j)
    ensures !Contains(payload, marker) ==> r == payload[..if |payload| == 0 then 0 else |payload| - 1]
  {
    var index := RFind(payload, marker);
    if index >= 0 then payload[..index]
    else payload[..if |payload| == 0 then 0 else |payload| - 1]
  }

  /** A text containing the marker contains every prefix of it. */
  lemma ContainsPrefix(s: string, marker: string, k: nat)
    requires k <= |marker| && Contains(s, marker)
    ensures Contains(s, marker[..k])
  {
    var i :| 0 <= i <= |s| && At(s, marker, i);
    assert s[i..i + k] == marker[..k];
    assert At(s, marker[..k], i);
  }

  /** `add_paragraph`: the stripped text, wrapped in "<p>…</p>" unless it already starts with
      "<p>". */
  function AddParagraph(post: string): (r: string)
    ensures "<p>" <= r && Strip(r) == r
    ensures "<p>" <= Strip(post) ==> r == Strip(post)
    ensures !("<p>" <= Strip(post)) ==> r == "<p>" + Strip(post) + "</p>"
  {
    var s := Strip(post);
    StripIdempotent(post);
    if "<p>" <= s then s
    else
      var w := "<p>" + s + "</p>";
      assert w[0] == '<' && w[|w| - 1] == '>';
      StripTrimmed(w);
      w
  }

  /** `add_paragraph` is idempotent. */
  lemma AddParagraphIdempotent(post: string)
    ensures AddParagraph(AddParagraph(post)) == AddParagraph(post)
  {
  }

  /** A part of an incoming message, its payload already decoded. */
  datatype Part = Part(contentType: string, disposition: Option<string>, filename: Option<string>, payload: string)

  /** An attachment taken from a part with a Content-Disposition header. */
  datatype Attachment = Attachment(filename: Option<string>, contentType: string, data: string)

  /** The text parts of the message, in order: the HTML and the plain text accumulated
      separately. */
  function Bodies(parts: seq<Part>): (r: (string, string))
    decreases |parts|
  {
    if |parts| == 0 then ("", "")
    else
      var init := Bodies(parts[..|parts| - 1]);
      var p := parts[|parts| - 1];
      if p.disposition.Some? then init
      else if p.contentType == "text/html" then (init.0 + p.payload, init.1)
      else if p.contentType == "text/plain" then (init.0, init.1 + p.payload)
      else init
  }

  /** The parts with a Content-Disposition header, as attachments, in order. */
  function Attachments(parts: seq<Part>): (r: seq<Attachment>)
    ensures |r| <= |parts|
    ensures forall a :: a in r <==> exists p :: p in parts && p.disposition.Some? && a == Attachment(p.filename, p.contentType, p.payload)
  {
    if |parts| == 0 then []
    else
      var p := parts[0];
      assert forall q :: q in parts <==> q == p || q in parts[1..];
      (if p.disposition.Some? then [Attachment(p.filename, p.contentType, p.payload)] else []) + Attachments(parts[1..])
  }

  /** Where the new post's text comes from, in order of preference. */
  datatype Source = HtmlUpToMarker | PlainUpToMarker | WholeHtml | WholePlain

  function Choose(html: string, plain: string, marker: string): (s: Source)
    ensures s == HtmlUpToMarker <==> Contains(html, marker)
    ensures s == PlainUpToMarker <==> !Contains(html, marker) && Contains(plain, marker)
    ensures s == WholeHtml <==> !Contains(html, marker) && !Contains(plain, marker) && html != ""
  {
    if Contains(html, marker) then HtmlUpToMarker
    else if Contains(plain, marker) then PlainUpToMarker
    else if html != "" then WholeHtml
    else WholePlain
  }

  /** `process`: the new post is the HTML up to the marker, else the plain text up to it,
      else the whole HTML, else the whole plain text; HTML is sanitised and cleaned, and
      every choice goes through `add_paragraph`. A mail without the marker is accepted
      whole: the LookupError for that case is commented out. The text is cut at the last
      occurrence of the marker's first nine characters. */
  function Process(parts: seq<Part>, marker: string, validate: string -> string, clean: string -> string)
    : (r: (string, seq<Attachment>))
    ensures r.1 == Attachments(parts)
    ensures var (html, plain) := Bodies(parts);
            var cut := marker[..if |marker| < 9 then |marker| else 9];
            match Choose(html, plain, marker)
            case HtmlUpToMarker => r.0 == clean(AddParagraph(validate(ExtractContent(html, cut))))
            case PlainUpToMarker => r.0 == AddParagraph(ExtractContent(plain, cut))
            case WholeHtml => r.0 == clean(AddParagraph(validate(html)))
            case WholePlain => r.0 == AddParagraph(plain)
  {
    var (html, plain) := Bodies(parts);
    var cut := marker[..if |marker| < 9 then |marker| else 9];
    var post :=
      if Contains(html, marker) then clean(AddParagraph(validate(ExtractContent(html, cut))))
      else if Contains(plain, marker) then AddParagraph(ExtractContent(plain, cut))
      else if html != "" then clean(AddParagraph(validate(html)))
      else AddParagraph(plain);
    (post, Attachments(parts))
  }

  /** A plain-text reply containing the marker (and HTML that does not) becomes the text
      before the last occurrence of the marker's first nine characters, stripped and
      wrapped in a paragraph: the -1 of `rfind` never arises here. */
  lemma ProcessPlainReply(parts: seq<Part>, marker: string, validate: string -> string, clean: string -> string)
    requires var (html, plain) := Bodies(parts); !Contains(html, marker) && Contains(plain, marker)
    ensures var (html, plain) := Bodies(parts);
            var cut := marker[..if |marker| < 9 then |marker| else 9];
            exists k :: 0 <= k <= |plain| && At(plain, cut, k)
              && (forall j :: k < j ==> !At(plain, cut, j))
              && Process(parts, marker, validate, clean).0 == AddParagraph(plain[..k])
  {
    var (html, plain) := Bodies(parts);
    var n := if |marker| < 9 then |marker| else 9;
    ContainsPrefix(plain, marker, n);
    var e := ExtractContent(plain, marker[..n]);
    assert plain[..|e|] == e;
  }

  // ---------------------------------------------------------------------------
  // send_post_by_email: recipient chunks
  // ---------------------------------------------------------------------------

  const ChunkSize: nat := 20

  function Flatten(chunks: seq<seq<nat>>): seq<nat> {
    if |chunks| == 0 then [] else Flatten(chunks[..|chunks| - 1]) + chunks[|chunks| - 1]
  }

  /** The batches `send_post_by_email` dispatches: each member id is appended to the current
      chunk, which is sent whenever the id's position is a multiple of 20, and what is left
      is sent at the end. The batches are the ids in order; the first holds one id and no
      batch is empty or holds more than 20. */
  method RecipientChunks(ids: seq<nat>) returns (chunks: seq<seq<nat>>)
    ensures Flatten(chunks) == ids
    ensures forall k :: 0 <= k < |chunks| ==> 0 < |chunks[k]| <= ChunkSize
    ensures |ids| > 0 ==> |chunks| > 0 && chunks[0] == [ids[0]]
  {
    chunks := [];
    var chunk: seq<nat> := [];
    var idx := 0;
    while idx < |ids|
      invariant 0 <= idx <= |ids|
      invariant Flatten(chunks) + chunk == ids[..idx]
      invariant |chunk| == (if idx == 0 then 0 else (idx - 1) % ChunkSize)
      invariant forall k :: 0 <= k < |chunks| ==> 0 < |chunks[k]| <= ChunkSize
      invariant idx > 0 ==> |chunks| > 0 && chunks[0] == [ids[0]]
    {
      ChunkCount(idx);
      chunk := chunk + [ids[idx]];
      assert ids[..idx + 1] == ids[..idx] + [ids[idx]];
      if idx % ChunkSize == 0 {
        FlattenAppend(chunks, chunk);
        chunks := chunks + [chunk];
        chunk := [];
      }
      idx := idx + 1;
    }
    if |chunk| > 0 {
      FlattenAppend(chunks, chunk);
      chunks := chunks + [chunk];
    }
    assert ids[..|ids|] == ids;
  }

  /** The counter arithmetic of the loop: a chunk is full exactly when the next index is a
      multiple of the chunk size. */
  lemma ChunkCount(idx: nat)
    ensures idx > 0 && idx % ChunkSize == 0 ==> (idx - 1) % ChunkSize + 1 == ChunkSize
    ensures idx > 0 && idx % ChunkSize != 0 ==> (idx - 1) % ChunkSize + 1 == idx % ChunkSize
  {
  }

  lemma FlattenAppend(chunks: seq<seq<nat>>, chunk: seq<nat>)
    ensures Flatten(chunks + [chunk]) == Flatten(chunks) + chunk
  {
    assert (chunks + [chunk])[..|chunks|] == chunks;
  }

  // ---------------------------------------------------------------------------
  // process_email
  // ---------------------------------------------------------------------------

  /** What `process_email` takes from a mail it accepts. */
  datatype Accepted = Accepted(locale: string, threadId: string, userId: string, post: string,
                               attachments: seq<Attachment>)

  /** `process_email` up to storing the post: a recipient without a subtag, or one that does
      not decode to at least a locale, a thread id and a user id, makes it return False
      (here None). */
  function ProcessEmail(to: string, parts: seq<Part>, marker: string, digest: string -> string, check: Check,
                        validate: string -> string, clean: string -> string): (r: Option<Accepted>)
    ensures !HasSubtag(to) ==> r.None?
    ensures r.Some? ==> var d := ExtractEmailDestination(to, digest, check);
              d.Success? && |d.value| >= 3
              && r.value.locale == d.value[0] && r.value.threadId == d.value[1] && r.value.userId == d.value[2]
  {
    if !HasSubtag(to) then None
    else
      match ExtractEmailDestination(to, digest, check)
      case Failure(_) => None
      case Success(infos) =>
        if |infos| < 3 then None
        else
          var (post, attachments) := Process(parts, marker, validate, clean);
          Some(Accepted(infos[0], infos[1], infos[2], post, attachments))
  }

  /** A reply to an address the forum built is accepted, for the thread and user it was
      built for. */
  lemma ReplyIsAccepted(name: string, locale: string, threadId: nat, userId: nat, domain: string,
                        digest: string -> string, parts: seq<Part>, marker: string,
                        validate: string -> string, clean: string -> string)
    requires IsHex(digest(ReplyUid(locale, threadId, userId))) && Plain(locale) && '<' !in name && '<' !in domain && '@' !in domain
    ensures var a := BuildReplyEmailAddress(name, locale, threadId, userId, domain, digest, Corrected);
            a.Success? ==>
              var r := ProcessEmail(a.value, parts, marker, digest, Corrected, validate, clean);
              r.Some? && r.value.locale == locale
              && r.value.threadId == NatToString(threadId) && r.value.userId == NatToString(userId)
  {
    var a := BuildReplyEmailAddress(name, locale, threadId, userId, domain, digest, Corrected);
    if a.Success? {
      CorrectedReplyRoundTrip(name, locale, threadId, userId, domain, digest);
      ReplyAddressHasSubtag(name, locale, threadId, userId, domain, digest, Corrected);
    }
  }
}
