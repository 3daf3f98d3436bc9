/** The contact form (`enviarWhats`): the WhatsApp link built from the
    visitor's name and message. */
module Contact {

  import opened Seqs
  import opened Text
  import opened Uri

  /** The number messages are sent to. */
  const Phone := "5592999828545"
  /** Everything before the encoded message. */
  const WhatsAppBase := "https://wa.me/" + Phone + "?text="

  /** The message text, before encoding. */
  function Greeting(name: string, message: string): string
  {
    "Olá, me chamo " + name + ". " + message
  }

  /** The link `enviarWhats` opens for the values of the name and message
      fields (None when a field is missing from the page), or None when it
      alerts instead: a field missing or blank after trimming. */
  function WhatsAppLink(nameField: Option<string>, messageField: Option<string>): (url: Option<string>)
    ensures url.None? <==>
      (nameField.None? || messageField.None? || Blank(nameField.value) || Blank(messageField.value))
    ensures url.Some? ==>
      && |url.value| >= |WhatsAppBase|
      && url.value[..|WhatsAppBase|] == WhatsAppBase
      && (forall i :: |WhatsAppBase| <= i < |url.value| ==> UriSafe(url.value[i]))
      && DecodeUriComponent(url.value[|WhatsAppBase|..])
           == Some(Greeting(Trim(nameField.value), Trim(messageField.value)))
  {
    if nameField.None? || messageField.None? then None
    else
      var name := Trim(nameField.value);
      var message := Trim(messageField.value);
      TrimSpec(nameField.value);
      TrimSpec(messageField.value);
      if name == "" || message == "" then None
      else
        var tail := EncodeUriComponent(Greeting(name, message));
        DecodeEncode(Greeting(name, message));
        var url := WhatsAppBase + tail;
        assert url[..|WhatsAppBase|] == WhatsAppBase && url[|WhatsAppBase|..] == tail;
        Some(url)
  }

  /** Only the trimmed fields matter: entering them already trimmed gives
      the same link. */
  lemma TrimmedFieldsSameLink(name: string, message: string)
    ensures WhatsAppLink(Some(Trim(name)), Some(Trim(message))) == WhatsAppLink(Some(name), Some(message))
  {
    TrimIdempotent(name);
    TrimIdempotent(message);
  }
}
