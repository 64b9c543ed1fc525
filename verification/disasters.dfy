/** The four concrete `DisasterManager` subclasses, as one tagged variant: the
    identifier prefix each passes to its superclass and the situation table
    each `getSafetySuggestions` override holds. */
module Disasters {
  import opened Results
  import opened Text

  datatype Disaster = Earthquake | Typhoon | Flood | Fire

  /** The `codePrefix` each subclass constructor passes to `DisasterManager`. */
  function CodePrefix(d: Disaster): (p: string)
    ensures 2 <= |p| <= 3
    ensures forall i :: 0 <= i < |p| ==> 'A' <= p[i] <= 'Z'
  {
    match d
    case Earthquake => "EQ"
    case Typhoon => "TYP"
    case Flood => "FLD"
    case Fire => "FIR"
  }

  /** The disaster's name as the invalid-choice messages spell it. */
  function DisplayName(d: Disaster): string {
    match d
    case Earthquake => "Earthquake"
    case Typhoon => "Typhoon"
    case Flood => "Flood"
    case Fire => "Fire"
  }

  /** `InvalidChoiceException` raised for a situation code outside 1..4. */
  datatype ChoiceError = InvalidSituation(kind: Disaster) {
    function Message(): string {
      "Invalid situation for " + DisplayName(kind) + " suggestions."
    }
  }

  /** `getSafetySuggestions(choice)` of the subclass for `d`: a non-empty list of
      advice lines for codes 1 to 4, and for every other code an
      invalid-choice error that names `d`. */
  function SafetySuggestions(d: Disaster, choice: int): (r: Result<seq<string>, ChoiceError>)
    ensures r.Success? <==> 1 <= choice <= 4
    ensures r.Success? ==> |r.value| > 0
    ensures r.Failure? ==> r.error == InvalidSituation(d)
  {
    if !(1 <= choice <= 4) then Failure(InvalidSituation(d))
    else Success(Table(d, choice))
  }

  function Table(d: Disaster, choice: int): (r: seq<string>)
    requires 1 <= choice <= 4
    ensures |r| > 0
  {
    match d
    case Earthquake => EarthquakeTable(choice)
    case Typhoon => TyphoonTable(choice)
    case Flood => FloodTable(choice)
    case Fire => FireTable(choice)
  }

  /** Situation codes: 1 injured, 2 head and chest trauma, 3 hypothermia or
      drowning, 4 electric shock. */
  function EarthquakeTable(choice: int): (r: seq<string>)
    requires 1 <= choice <= 4
    ensures |r| > 0
  {
    if choice == 1 then
      ["Stop any bleeding with direct pressure.",
       "Immobilize fractures if trained to do so.",
       "Call for emergency medical help."]
    else if choice == 2 then
      ["Keep the patient still and monitor breathing.",
       "Control bleeding and avoid moving the neck/head.",
       "Transport to nearest hospital immediately."]
    else if choice == 3 then
      ["Move person to a dry, warm place.",
       "Remove wet clothing and cover with blankets.",
       "Give warm fluids if conscious and seek medical care."]
    else
      ["Do not touch the person if still in contact with the electrical source.",
       "Turn off power before approaching.",
       "Check breathing and pulse; perform CPR if needed."]
  }

  function TyphoonTable(choice: int): (r: seq<string>)
    requires 1 <= choice <= 4
    ensures |r| > 0
  {
    if choice == 1 then
      ["Move the injured to safety and apply first aid.", "Get professional medical help."]
    else if choice == 2 then
      ["Avoid moving the person unless danger is imminent.", "Stabilize head/neck if suspected trauma."]
    else if choice == 3 then
      ["Dry and warm the victim; prevent further heat loss."]
    else
      ["Do not touch person while in contact with electricity; turn off power first.", "Call emergency services."]
  }

  function FloodTable(choice: int): (r: seq<string>)
    requires 1 <= choice <= 4
    ensures |r| > 0
  {
    if choice == 1 then
      ["Prioritize breathing and bleeding control.", "Avoid moving victims in water unless necessary."]
    else if choice == 2 then
      ["Check if the person is breathing.", "Perform CPR immediately if necessary.", "Keep them warm and transport urgently."]
    else if choice == 3 then
      ["Avoid water near downed power lines.", "Inform power company and emergency responders."]
    else
      ["Avoid ingesting flood water.", "Seek medical advice for wounds exposed to contaminated water."]
  }

  function FireTable(choice: int): (r: seq<string>)
    requires 1 <= choice <= 4
    ensures |r| > 0
  {
    if choice == 1 then
      ["Move the injured to fresh air.", "Control bleeding and call emergency services."]
    else if choice == 2 then
      ["Cool burns with running water for 10-20 minutes.", "Avoid applying creams; seek medical care for severe burns."]
    else if choice == 3 then
      ["Move to fresh air immediately.", "Loosen clothing around chest and neck; perform rescue breathing if needed."]
    else
      ["Check breathing and pulse; begin CPR if necessary.", "Call emergency responders immediately."]
  }

  /** The invalid-choice message names the disaster type it was raised for. */
  lemma InvalidSituationNamesDisaster(d: Disaster)
    ensures Contains(InvalidSituation(d).Message(), DisplayName(d))
  {
    var m := InvalidSituation(d).Message();
    assert DisplayName(d) <= m[|"Invalid situation for "|..];
  }

  /** Any two disaster types' prefixes differ in one of their first two
      letters, so identifiers of different stores never coincide. */
  lemma PrefixesDiffer(d: Disaster, e: Disaster)
    requires d != e
    ensures CodePrefix(d)[0] != CodePrefix(e)[0] || CodePrefix(d)[1] != CodePrefix(e)[1]
  {
  }
}
