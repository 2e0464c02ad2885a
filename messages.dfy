/**
 * A chat message as the bot passes it around: the scraper builds a dictionary with the
 * string fields `sender`, `time`, `date` and `message`, the history keeps those values,
 * and the durable store writes them out as JSON objects. A history loaded from disk may in
 * principle hold any JSON value, so a non-dictionary entry is representable too.
 */
module Messages {

  datatype Message = Dict(fields: map<string, string>) | NonDict

  /** The dictionary `{"sender": .., "time": .., "date": .., "message": ..}` the scraper builds */
  function MakeMessage(sender: string, time: string, date: string, text: string): (m: Message)
    ensures m.Dict? && m.fields.Keys == {"sender", "time", "date", "message"}
    ensures m.fields["sender"] == sender && m.fields["message"] == text
    ensures m.fields["date"] == date && m.fields["time"] == time
  {
    Dict(map["sender" := sender, "time" := time, "date" := date, "message" := text])
  }
}
