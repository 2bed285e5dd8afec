/** Mapping of the classifier's raw label to the label the tool reports. */
module Labels {

  const Fake: string := "FAKE"
  const Real: string := "REAL"

  /** The raw label the classifier gives for fake news. */
  const FakeTag: string := "LABEL_1"

  /** "LABEL_1" is reported as FAKE; every other raw label, "LABEL_0" or
      anything else, is reported as REAL. */
  function MapLabel(raw: string): (verdict: string)
    ensures verdict == Fake || verdict == Real
    ensures verdict == Fake <==> raw == FakeTag
  {
    if raw == FakeTag then Fake else Real
  }
}
