/**
  WhatsApp enquiry texts: `BusinessUtils.generateWhatsAppMessage` and the
  `wa.me` link that `initWhatsAppIntegration` writes, which carries the
  business-hours status.
 */
module WhatsApp {
  import opened Options
  import opened UriEncoding
  import opened BusinessHours

  const Greeting := "Hello Concrete World (Ayaan Hardware),\n\n"
  const DetailsLabel := "\nProject Details: "
  const ThankYou := "Thank you!"
  const ClosingRequest := "\nPlease provide more information and pricing."
  const Closing := ClosingRequest + "\n\n" + ThankYou

  /** The line naming the customer, their number and the product category. */
  function IntroLine(name: string, phone: string, category: string): string {
    "I'm " + name + " (" + phone + ") and I'm interested in " + category + ".\n"
  }

  /** The optional project-details paragraph; an empty `details` (the default) is falsy. */
  function DetailsBlock(details: string): (block: string)
    ensures details == [] <==> block == []
  {
    if details == [] then [] else DetailsLabel + details + "\n"
  }

  /** The message before encoding. */
  function ComposeMessage(name: string, phone: string, category: string, details: string): (m: string)
    ensures |m| >= |Greeting| + |Closing|
    ensures m[..|Greeting|] == Greeting
    ensures m[|m| - |ThankYou|..] == ThankYou
  {
    var m := Greeting + IntroLine(name, phone, category) + DetailsBlock(details) + Closing;
    assert m[|m| - |Closing|..] == Closing;
    assert Closing[|Closing| - |ThankYou|..] == ThankYou;
    m
  }

  /** `generateWhatsAppMessage(name, phone, category, details)`: the encoded
      message. It consists of unreserved characters and `%XY` escapes only, and
      decodes back to the composed text. */
  function GenerateWhatsAppMessage(name: string, phone: string, category: string, details: string): (r: string)
    ensures IsEncodedForm(r)
    ensures Decode(r) == Some(ComposeMessage(name, phone, category, details))
  {
    var m := ComposeMessage(name, phone, category, details);
    EncodeForm(m);
    DecodeEncode(m);
    Encode(m)
  }

  /** Where the details paragraph would start: right after the intro line. */
  function DetailsOffset(name: string, phone: string, category: string): nat {
    |Greeting| + |IntroLine(name, phone, category)|
  }

  /** The `Project Details:` label stands right after the intro line exactly
      when `details` is non-empty; what follows it there is the details text. */
  lemma {:induction false} DetailsLineIff(name: string, phone: string, category: string, details: string)
    ensures
      var m := ComposeMessage(name, phone, category, details);
      var k := DetailsOffset(name, phone, category);
      && k + |DetailsLabel| <= |m|
      && (m[k..k + |DetailsLabel|] == DetailsLabel <==> details != [])
      && (details != [] ==> k + |DetailsLabel| + |details| <= |m|
                            && m[k + |DetailsLabel|..k + |DetailsLabel| + |details|] == details)
  {
    var head := Greeting + IntroLine(name, phone, category);
    assert ComposeMessage(name, phone, category, details) == head + DetailsBlock(details) + Closing;
    if details == [] {
      assert head + DetailsBlock(details) + Closing == head + Closing;
      LabelAbsentBeforeClosing(head);
    } else {
      LabelBeforeDetails(head, details);
    }
  }

  /** Without details the closing follows the intro, and it does not start
      with the label. */
  lemma {:induction false} LabelAbsentBeforeClosing(head: string)
    ensures |head| + |DetailsLabel| <= |head + Closing|
    ensures (head + Closing)[|head|..|head| + |DetailsLabel|] != DetailsLabel
  {
    var m := head + Closing;
    assert m[|head|..|head| + |DetailsLabel|][2] == Closing[2] == ClosingRequest[2] == 'l';
    assert DetailsLabel[2] == 'r';
  }

  /** With details the label and then the details text follow the intro. */
  lemma {:induction false} LabelBeforeDetails(head: string, details: string)
    requires details != []
    ensures
      var m := head + DetailsBlock(details) + Closing;
      var k := |head|;
      && k + |DetailsLabel| + |details| <= |m|
      && m[k..k + |DetailsLabel|] == DetailsLabel
      && m[k + |DetailsLabel|..k + |DetailsLabel| + |details|] == details
  {
  }

  /** In `m`, an intro line that starts at `start` and ends at `end` carries
      the name right after `I'm `, then ` (` and the phone, and the category
      just before the `.\n` that ends the line. */
  predicate FieldsAt(m: string, start: nat, end: nat, name: string, phone: string, category: string) {
    var a := start + 4;
    && a + |name| + 2 + |phone| <= end - 2 - |category|
    && end <= |m|
    && m[a..a + |name|] == name
    && m[a + |name|..a + |name| + 2] == " ("
    && m[a + |name| + 2..a + |name| + 2 + |phone|] == phone
    && m[end - 2 - |category|..end - 2] == category
    && m[end - 2..end] == ".\n"
  }

  /** The message carries the customer's name, phone and category where the
      template puts them, in the line after the greeting. */
  lemma {:induction false} IntroFields(name: string, phone: string, category: string, details: string)
    ensures FieldsAt(ComposeMessage(name, phone, category, details),
                     |Greeting|, DetailsOffset(name, phone, category), name, phone, category)
  {
    var m := ComposeMessage(name, phone, category, details);
    assert m == Greeting + IntroLine(name, phone, category) + DetailsBlock(details) + Closing;
    FieldsAfterHead(Greeting, name, phone, category, DetailsBlock(details), Closing);
  }

  /** The same positions after any text before the intro line and before any
      text after it. */
  lemma {:induction false} FieldsAfterHead(head: string, name: string, phone: string, category: string,
                                           block: string, closing: string)
    ensures FieldsAt(head + IntroLine(name, phone, category) + block + closing,
                     |head|, |head| + |IntroLine(name, phone, category)|, name, phone, category)
  {
    var intro := IntroLine(name, phone, category);
    var n, p, c, i := |name|, |phone|, |category|, |intro|;
    IntroLineFields(name, phone, category);
    MiddleSlice(head, intro, block, closing, 4, 4 + n);
    MiddleSlice(head, intro, block, closing, 4 + n, 6 + n);
    MiddleSlice(head, intro, block, closing, 6 + n, 6 + n + p);
    MiddleSlice(head, intro, block, closing, i - 2 - c, i - 2);
    MiddleSlice(head, intro, block, closing, i - 2, i);
  }

  /** Where each field stands inside the intro line. */
  lemma {:induction false} IntroLineFields(name: string, phone: string, category: string)
    ensures
      var intro := IntroLine(name, phone, category);
      var n, p, c, i := |name|, |phone|, |category|, |intro|;
      && 6 + n + p <= i - 2 - c
      && intro[4..4 + n] == name
      && intro[4 + n..6 + n] == " ("
      && intro[6 + n..6 + n + p] == phone
      && intro[i - 2 - c..i - 2] == category
      && intro[i - 2..i] == ".\n"
  {
  }

  /** A slice of the second part of a four-part concatenation. */
  lemma MiddleSlice(head: string, mid: string, block: string, closing: string, x: nat, y: nat)
    requires x <= y <= |mid|
    ensures (head + mid + block + closing)[|head| + x..|head| + y] == mid[x..y]
  {
  }

  /** Supplying details only inserts the details paragraph; the rest of the
      message is the same as without them. */
  lemma {:induction false} DetailsOnlyInsert(name: string, phone: string, category: string, details: string)
    ensures
      var plain := ComposeMessage(name, phone, category, []);
      var k := DetailsOffset(name, phone, category);
      && k <= |plain|
      && ComposeMessage(name, phone, category, details) == plain[..k] + DetailsBlock(details) + plain[k..]
  {
    var intro := IntroLine(name, phone, category);
    var plain := ComposeMessage(name, phone, category, []);
    var k := DetailsOffset(name, phone, category);
    assert plain == (Greeting + intro) + Closing;
    assert plain[..k] == Greeting + intro;
    assert plain[k..] == Closing;
  }

  // ---------------------------------------------------------------------
  // The wa.me link
  // ---------------------------------------------------------------------

  const BusinessNumber := "918660775309"
  const LinkBase := "https://wa.me/" + BusinessNumber + "?text="
  const Enquiry := "Hello! I would like to inquire about your building materials and services."

  /** The enquiry followed by a blank line and the current business status. */
  function EnquiryText(day: Weekday, hour: Hour): (text: string)
    ensures |text| >= |Enquiry| + 2
    ensures text[..|Enquiry|] == Enquiry
    ensures text[|Enquiry|..|Enquiry| + 2] == "\n\n"
    ensures text[|Enquiry| + 2..] == BusinessStatus(day, hour)
  {
    var text := Enquiry + "\n\n" + BusinessStatus(day, hour);
    assert text[..|Enquiry|] == Enquiry;
    assert text[|Enquiry|..|Enquiry| + 2] == "\n\n";
    assert text[|Enquiry| + 2..] == BusinessStatus(day, hour);
    text
  }

  /** The link `initWhatsAppIntegration`, once called, writes into every
      `wa.me` anchor at the given clock reading: the fixed base, then the
      encoded enquiry, which decodes back to the enquiry and reports open
      exactly during business hours. */
  function WhatsAppHref(day: Weekday, hour: Hour): (href: string)
    ensures |href| > |LinkBase| && href[..|LinkBase|] == LinkBase
    ensures IsEncodedForm(href[|LinkBase|..])
    ensures Decode(href[|LinkBase|..]) == Some(EnquiryText(day, hour))
    ensures EnquiryText(day, hour)[|Enquiry| + 2..] == OpenText <==> IsBusinessHours(day, hour)
  {
    var text := EnquiryText(day, hour);
    EncodeForm(text);
    DecodeEncode(text);
    var href := LinkBase + Encode(text);
    assert href[..|LinkBase|] == LinkBase && href[|LinkBase|..] == Encode(text);
    href
  }

  /** The link tells open hours from closed ones: two clock readings give the
      same link exactly when both are open or both are closed. */
  lemma HrefReflectsHours(d1: Weekday, h1: Hour, d2: Weekday, h2: Hour)
    ensures WhatsAppHref(d1, h1) == WhatsAppHref(d2, h2)
        <==> (IsBusinessHours(d1, h1) <==> IsBusinessHours(d2, h2))
  {
    var a, b := WhatsAppHref(d1, h1), WhatsAppHref(d2, h2);
    if a == b {
      assert a[|LinkBase|..] == b[|LinkBase|..];
      assert EnquiryText(d1, h1) == EnquiryText(d2, h2);
    }
  }
}
