/** The checks `form.onsubmit` makes before an edited sighting is sent
    (public/index.js:179-191): the three text fields first, the date field second. */
module EditForm {
  import opened Wrappers
  import opened Calendar
  import opened Normalizer

  const CompleteAllFields: string := "Please complete all fields!"
  const SelectDateTime: string := "Please select a date and time!"

  /** What the handler does with the form: show a message and stop, or pass the four
      values on to the send step. */
  datatype Submission =
    | Refuse(message: string)
    | Send(location: string, text: string, title: string, dateTime: string)

  /** `!value` on a form field's string is true exactly for the empty string. */
  predicate IsEmpty(value: string) {
    value == ""
  }

  function CheckSubmission(location: string, text: string, title: string, dateTime: string): (r: Submission)
    ensures r == Refuse(CompleteAllFields) <==> IsEmpty(location) || IsEmpty(text) || IsEmpty(title)
    ensures r == Refuse(SelectDateTime)
        <==> !IsEmpty(location) && !IsEmpty(text) && !IsEmpty(title) && IsEmpty(dateTime)
    ensures r.Send? <==> !IsEmpty(location) && !IsEmpty(text) && !IsEmpty(title) && !IsEmpty(dateTime)
    ensures r.Send? ==> r.location == location && r.text == text && r.title == title && r.dateTime == dateTime
  {
    if IsEmpty(location) || IsEmpty(text) || IsEmpty(title) then Refuse(CompleteAllFields)
    else if IsEmpty(dateTime) then Refuse(SelectDateTime)
    else Send(location, text, title, dateTime)
  }

  /** A missing text field is reported whatever the date field holds: the date is never
      looked at first. */
  lemma FieldsCheckedFirst(location: string, text: string, title: string, d1: string, d2: string)
    requires IsEmpty(location) || IsEmpty(text) || IsEmpty(title)
    ensures CheckSubmission(location, text, title, d1) == CheckSubmission(location, text, title, d2)
    ensures CheckSubmission(location, text, title, d1).Refuse?
  {
  }

  /** A stored timestamp that cannot be read, or is read with a year below 1000 (which the
      input empties), leaves the date field empty, so submitting the form unchanged asks
      for a date. */
  lemma UnreadableTimestampAsksForDate(
    native: NativeParser, timeStamp: Option<string>, location: string, text: string, title: string)
    requires !IsEmpty(location) && !IsEmpty(text) && !IsEmpty(title)
    requires || timeStamp.None? || TryParse(native, timeStamp.value).None?
             || TryParse(native, timeStamp.value).value.dt.year < 1000
    ensures CheckSubmission(location, text, title, DateField(native, timeStamp)) == Refuse(SelectDateTime)
  {
    DateFieldShown(native, timeStamp);
  }

  /** A timestamp read with a year of 1000 or later fills the date field with a value the
      handler passes on to the send step, and that value reads back, as a local date-time
      string, as the parsed date. */
  lemma ReadableTimestampIsSent(
    native: NativeParser, s: string, dt: LocalDateTime, location: string, text: string, title: string)
    requires !IsEmpty(location) && !IsEmpty(text) && !IsEmpty(title)
    requires TryParse(native, s) == Some(LocalDate(dt)) && dt.year >= 1000
    ensures var r := CheckSubmission(location, text, title, DateField(native, Some(s)));
            r.Send? && r.dateTime == Format(dt) && ParseLocalInput(r.dateTime) == Some(dt)
  {
    NormalizedReadsBack(native, s, dt);
  }
}
