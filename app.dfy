/**
 * The top-level orchestrator (App.tsx): the question bank and module
 * visibility it owns, the import/export guards over them, and the
 * completed-modules set with its "full-module quizzes only" rule.
 *
 * The bank is kept at the JSON level because the source stores whatever an
 * import file parses to: a whole-bank import checks only that the top level is
 * an object, and a sub-topic import inspects only element 0 of its array.
 * Numeric module ids become object keys through their decimal text.
 */
module App {
  import opened Wrappers
  import opened JsText
  import opened JsonValue
  import opened Types

  /** Top-level object of the bank: module key -> (sub-topic -> question array). */
  type Bank = map<string, Json>

  /** Module key -> visibility flag (a boolean unless persisted data said otherwise). */
  type Visibility = map<string, Json>

  /** The object key an integer module id becomes. */
  function ModuleKey(m: int): string {
    IntToDecimal(m)
  }

  /** `questionBank[moduleId]?.[subTopic]` */
  function Lookup(bank: Bank, m: int, s: string): (r: Option<Json>)
    ensures r.Some? <==> ModuleKey(m) in bank && bank[ModuleKey(m)].JObj? && s in bank[ModuleKey(m)].fields
    ensures r.Some? ==> r.value == bank[ModuleKey(m)].fields[s]
  {
    if ModuleKey(m) in bank then Property(bank[ModuleKey(m)], s) else None
  }

  /** Everything but sub-topic `s` of module `m` is as before, and `m` has an entry. */
  ghost predicate ChangesOnly(before: Bank, after: Bank, m: int, s: string) {
    && ModuleKey(m) in after
    && (forall k :: k != ModuleKey(m) ==> (k in after <==> k in before))
    && (forall k :: k in before && k != ModuleKey(m) ==> after[k] == before[k])
    && (forall s' :: s' != s ==> Lookup(after, m, s') == Lookup(before, m, s'))
  }

  /**
   * `{ ...bank }`, then `{}` under the module when its entry is missing or
   * falsy, then the assignment of `v` under the sub-topic.  None when the
   * module entry is a truthy value that is not an object: the assignment
   * throws and the bank is left as it was.
   */
  function PutSubTopic(bank: Bank, m: int, s: string, v: Json): (r: Option<Bank>)
    ensures r.None? <==> ModuleKey(m) in bank && Truthy(bank[ModuleKey(m)]) && !bank[ModuleKey(m)].JObj?
    ensures r.Some? ==> Lookup(r.value, m, s) == Some(v) && ChangesOnly(bank, r.value, m, s)
    ensures r.Some? && (ModuleKey(m) !in bank || !Truthy(bank[ModuleKey(m)])) ==>
              r.value[ModuleKey(m)] == JObj(map[s := v])
  {
    var k := ModuleKey(m);
    var entry := if k in bank && Truthy(bank[k]) then bank[k] else JObj(map[]);
    if entry.JObj? then Some(bank[k := JObj(entry.fields[s := v])]) else None
  }

  /** Putting a list under one module leaves every sub-topic of every other module as it was. */
  lemma PutSubTopicKeepsOtherModules(bank: Bank, m: int, s: string, v: Json, m': int, s': string)
    requires PutSubTopic(bank, m, s, v).Some? && m' != m
    ensures Lookup(PutSubTopic(bank, m, s, v).value, m', s') == Lookup(bank, m', s')
  {
    IntToDecimalInjective(m, m');
  }

  // ---------------------------------------------------------------- import

  datatype ImportError =
    | Unreadable(message: string)  // the file could not be read or JSON.parse threw
    | NotAnObject                   // whole-bank file whose top level is not a plain object
    | NotAQuestionArray             // sub-topic file that fails the array / element-0 test
    | ModuleEntryNotAnObject        // the stored module entry is a truthy non-object; assigning into it throws

  /** `typeof v === 'object' && v !== null && !Array.isArray(v)`, then the object replaces the bank. */
  function ImportedBank(parsed: Result<Json, string>): (r: Result<Bank, ImportError>)
    ensures r.Success? <==> parsed.Success? && parsed.value.JObj?
    ensures r.Success? ==> r.value == parsed.value.fields
    ensures parsed.Success? && !parsed.value.JObj? ==> r == Failure(NotAnObject)
  {
    match parsed
    case Failure(msg) => Failure(Unreadable(msg))
    case Success(j) => if j.JObj? then Success(j.fields) else Failure(NotAnObject)
  }

  /** The test applied to element 0 of an imported sub-topic array (App.tsx:203-206). */
  predicate LooksLikeQuestion(j: Json) {
    && TruthyProperty(j, "id")
    && TruthyProperty(j, "question")
    && Property(j, "options").Some? && Property(j, "options").value.JArr?
    && TruthyProperty(j, "correctAnswer")
  }

  /** An array that is empty or whose element 0 looks like a question; later elements are not looked at. */
  predicate IsQuestionArray(j: Json) {
    j.JArr? && (|j.elems| == 0 || LooksLikeQuestion(j.elems[0]))
  }

  function ImportedSubTopic(bank: Bank, m: int, s: string, parsed: Result<Json, string>): (r: Result<Bank, ImportError>)
    ensures r.Success? <==> parsed.Success? && IsQuestionArray(parsed.value) && PutSubTopic(bank, m, s, parsed.value).Some?
    ensures r.Success? ==> Lookup(r.value, m, s) == Some(parsed.value) && ChangesOnly(bank, r.value, m, s)
  {
    match parsed
    case Failure(msg) => Failure(Unreadable(msg))
    case Success(j) =>
      if !IsQuestionArray(j) then Failure(NotAQuestionArray)
      else match PutSubTopic(bank, m, s, j)
        case Some(b) => Success(b)
        case None => Failure(ModuleEntryNotAnObject)
  }

  /** Only element 0 decides: any tail behind the same first element gets the same verdict. */
  lemma ImportIgnoresTrailingElements(first: Json, rest1: seq<Json>, rest2: seq<Json>)
    ensures IsQuestionArray(JArr([first] + rest1)) == IsQuestionArray(JArr([first] + rest2))
  {
    assert ([first] + rest1)[0] == first == ([first] + rest2)[0];
  }

  /** A saved question list passes the sub-topic import test exactly when it is empty or its first question has a non-empty id, text and correct answer. */
  lemma EncodedQuestionsImportable(qs: seq<Question>)
    ensures IsQuestionArray(EncodeQuestions(qs)) <==>
              qs == [] || (qs[0].id != "" && qs[0].question != "" && qs[0].correctAnswer != "")
  {
    if qs != [] {
      var j := EncodeQuestion(qs[0]);
      assert EncodeQuestions(qs).elems[0] == j;
      assert TruthyProperty(j, "id") <==> qs[0].id != "";
      assert TruthyProperty(j, "question") <==> qs[0].question != "";
      assert TruthyProperty(j, "correctAnswer") <==> qs[0].correctAnswer != "";
    }
  }

  // ---------------------------------------------------------------- export

  datatype Download = Download(fileName: string, payload: Json)

  datatype ExportError = EmptyBank | NothingInSubTopic(subTopic: string)

  const BankFileName: string := "cyber-security-question-bank.json"

  /** Whole-bank export, refused when the bank object has no keys at all. */
  function ExportedBank(bank: Bank): (r: Result<Download, ExportError>)
    ensures r.Failure? <==> |bank| == 0
    ensures r.Success? ==> r.value.fileName == BankFileName
  {
    if |bank| == 0 then Failure(EmptyBank) else Success(Download(BankFileName, JObj(bank)))
  }

  /** Exporting the bank and importing the file gives the same bank back. */
  lemma BankExportImportRoundTrip(bank: Bank)
    requires |bank| > 0
    ensures ExportedBank(bank).Success? && ImportedBank(Success(ExportedBank(bank).value.payload)) == Success(bank)
  {
  }

  /** `v.length` for a JSON value: arrays and strings have one, objects only as an own property. */
  function LengthProperty(j: Json): Option<Json> {
    match j
    case JArr(es) => Some(JNum(|es| as real))
    case JStr(t) => Some(JNum(Utf16Length(t) as real))
    case JObj(f) => if "length" in f then Some(f["length"]) else None
    case _ => None
  }

  /** `!v || v.length === 0`: the sub-topic export guard (App.tsx:174). */
  predicate NothingToExport(v: Option<Json>) {
    v.None? || !Truthy(v.value) || LengthProperty(v.value) == Some(JNum(0.0))
  }

  predicate IsAsciiAlnum(c: char) {
    'a' <= c <= 'z' || 'A' <= c <= 'Z' || '0' <= c <= '9'
  }

  predicate IsSlugChar(c: char) {
    'a' <= c <= 'z' || '0' <= c <= '9' || c == '_'
  }

  predicate IsSlug(s: string) {
    forall i :: 0 <= i < |s| ==> IsSlugChar(s[i])
  }

  /**
   * One code point through `.replace(/[^a-z0-9]/gi, '_').toLowerCase()`:
   * ASCII letters and digits survive (lower-cased), anything else becomes an
   * underscore per UTF-16 code unit.
   */
  function SlugOf(c: char): (r: string)
    ensures IsSlug(r) && |r| == (if c as int > 0xFFFF then 2 else 1)
    ensures IsAsciiAlnum(c) <==> r[0] != '_'
    ensures 'A' <= c <= 'Z' ==> r == [(c as int + 32) as char] && 'a' <= r[0] <= 'z'
    ensures ('a' <= c <= 'z' || '0' <= c <= '9') ==> r == [c]
    ensures !IsAsciiAlnum(c) ==> forall i :: 0 <= i < |r| ==> r[i] == '_'
  {
    if 'A' <= c <= 'Z' then [(c as int + 32) as char]
    else if IsAsciiAlnum(c) then [c]
    else if c as int > 0xFFFF then "__"
    else "_"
  }

  function Slug(s: string): (r: string)
    ensures IsSlug(r) && |r| == Utf16Length(s)
  {
    if s == [] then [] else SlugOf(s[0]) + Slug(s[1..])
  }

  lemma {:induction false} SlugAppend(a: string, b: string)
    ensures Slug(a + b) == Slug(a) + Slug(b)
  {
    if a == [] {
      assert a + b == b;
    } else {
      assert (a + b)[0] == a[0] && (a + b)[1..] == a[1..] + b;
      SlugAppend(a[1..], b);
    }
  }

  /** A slug is its own slug, so slugging a file name twice changes nothing. */
  lemma {:induction false} SlugIdempotent(s: string)
    ensures Slug(Slug(s)) == Slug(s)
  {
    if s != [] {
      var head := SlugOf(s[0]);
      SlugAppend(head, Slug(s[1..]));
      SlugIdempotent(s[1..]);
      if |head| == 2 {
        assert head == "__";
        assert Slug(head) == SlugOf('_') + Slug(head[1..]);
      } else {
        assert Slug(head) == SlugOf(head[0]) + Slug([]);
      }
    }
  }

  /** On a string of code points up to U+FFFF the slug is position-wise: letters and digits lower-cased, all else '_'. */
  lemma {:induction false} SlugAt(s: string, i: nat)
    requires forall j :: 0 <= j < |s| ==> s[j] as int <= 0xFFFF
    requires i < |s|
    ensures |Slug(s)| == |s| && Slug(s)[i] == SlugOf(s[i])[0]
  {
    if i > 0 {
      SlugAt(s[1..], i - 1);
    } else if |s| > 1 {
      SlugAt(s[1..], 0);
    }
  }

  /** The download name: the slug, in as many characters as the sub-topic has UTF-16 units, then the fixed suffix. */
  function SubTopicFileName(subTopic: string): (name: string)
    ensures |name| == Utf16Length(subTopic) + |"_questions.json"|
    ensures IsSlug(name[..Utf16Length(subTopic)]) && name[Utf16Length(subTopic)..] == "_questions.json"
  {
    Slug(subTopic) + "_questions.json"
  }

  /** Sub-topic export: refused when there is nothing to export, otherwise the stored value under the slug file name. */
  function ExportedSubTopic(bank: Bank, m: int, s: string): (r: Result<Download, ExportError>)
    ensures r.Failure? <==> NothingToExport(Lookup(bank, m, s))
    ensures r.Failure? ==> r.error == NothingInSubTopic(s)
    ensures r.Success? ==> Some(r.value.payload) == Lookup(bank, m, s)
    ensures r.Success? ==> r.value.fileName == SubTopicFileName(s)
  {
    var v := Lookup(bank, m, s);
    if NothingToExport(v) then Failure(NothingInSubTopic(s))
    else Success(Download(SubTopicFileName(s), v.value))
  }

  /**
   * A non-empty list saved through the editor exports, and importing that file
   * under any sub-topic stores the same list there, provided its first
   * question has a non-empty id, text and correct answer.
   */
  lemma SavedSubTopicRoundTrip(bank: Bank, m: int, s: string, qs: seq<Question>, target: Bank, m': int, s': string)
    requires PutSubTopic(bank, m, s, EncodeQuestions(qs)).Some?
    requires PutSubTopic(target, m', s', EncodeQuestions(qs)).Some?
    requires |qs| > 0 && qs[0].id != "" && qs[0].question != "" && qs[0].correctAnswer != ""
    ensures var out := ExportedSubTopic(PutSubTopic(bank, m, s, EncodeQuestions(qs)).value, m, s);
            && out.Success?
            && var back := ImportedSubTopic(target, m', s', Success(out.value.payload));
            && back.Success?
            && Lookup(back.value, m', s') == Some(EncodeQuestions(qs))
  {
    EncodedQuestionsImportable(qs);
  }

  /** An empty list, once saved, is refused by export; an empty array is accepted by import. */
  lemma EmptySubTopicAsymmetry(bank: Bank, m: int, s: string)
    requires PutSubTopic(bank, m, s, JArr([])).Some?
    ensures ExportedSubTopic(PutSubTopic(bank, m, s, JArr([])).value, m, s).Failure?
    ensures ImportedSubTopic(bank, m, s, Success(JArr([]))).Success?
  {
  }

  // ------------------------------------------------------------ visibility

  function CatalogKeys(ids: seq<int>): set<string> {
    set id | id in ids :: ModuleKey(id)
  }

  /** The `reduce` that marks every catalog module visible (App.tsx:41-44 and 54). */
  method DefaultVisibility(catalogIds: seq<int>) returns (acc: Visibility)
    ensures acc.Keys == CatalogKeys(catalogIds)
    ensures forall k :: k in acc ==> acc[k] == JBool(true)
  {
    acc := map[];
    for i := 0 to |catalogIds|
      invariant acc.Keys == CatalogKeys(catalogIds[..i])
      invariant forall k :: k in acc ==> acc[k] == JBool(true)
    {
      assert catalogIds[..i + 1] == catalogIds[..i] + [catalogIds[i]];
      acc := acc[ModuleKey(catalogIds[i]) := JBool(true)];
    }
    assert catalogIds[..|catalogIds|] == catalogIds;
  }

  /** What the persisted visibility setting was at start-up; a parsed value enters as its own enumerable properties, which is what the spread copies. */
  datatype Persisted = NothingSaved | Unparsable | Saved(ownProperties: map<string, Json>)

  /** `{ ...prev, [moduleId]: !prev[moduleId] }` */
  function Toggled(v: Visibility, m: int): (r: Visibility)
    ensures r.Keys == v.Keys + {ModuleKey(m)}
    ensures forall k :: k in v && k != ModuleKey(m) ==> r[k] == v[k]
    ensures Truthy(r[ModuleKey(m)]) <==> !(ModuleKey(m) in v && Truthy(v[ModuleKey(m)]))
    ensures ModuleKey(m) !in v ==> r[ModuleKey(m)] == JBool(true)
    ensures r[ModuleKey(m)] == JBool(!(ModuleKey(m) in v && Truthy(v[ModuleKey(m)])))
  {
    v[ModuleKey(m) := JBool(!(ModuleKey(m) in v && Truthy(v[ModuleKey(m)])))]
  }

  /** Toggling one module never changes another module's flag. */
  lemma ToggleKeepsOtherModules(v: Visibility, m: int, m': int)
    requires m' != m && ModuleKey(m') in v
    ensures Toggled(v, m)[ModuleKey(m')] == v[ModuleKey(m')]
  {
    IntToDecimalInjective(m, m');
  }

  /** Toggling twice restores the flag's truthiness, and restores the map exactly when the flag was a boolean. */
  lemma ToggleTwice(v: Visibility, m: int)
    requires ModuleKey(m) in v
    ensures Truthy(Toggled(Toggled(v, m), m)[ModuleKey(m)]) == Truthy(v[ModuleKey(m)])
    ensures v[ModuleKey(m)].JBool? ==> Toggled(Toggled(v, m), m) == v
  {
    var k := ModuleKey(m);
    if v[k].JBool? {
      var t := Toggled(Toggled(v, m), m);
      assert t.Keys == v.Keys;
      assert t[k] == v[k];
    }
  }

  // ---------------------------------------------------------------- state

  datatype View = Dashboard | Quiz | Completed

  /** `!activeSubTopic`: no sub-topic, or the empty string. */
  predicate IsFullModuleQuiz(activeSubTopic: Option<string>) {
    activeSubTopic.None? || activeSubTopic.value == ""
  }

  class QuizApp {
    var view: View
    var activeModule: Option<int>
    var activeSubTopic: Option<string>
    var completed: set<int>
    var managerOpen: bool
    var bank: Bank
    var visibility: Visibility

    constructor ()
      ensures view == Dashboard && activeModule.None? && activeSubTopic.None? && !managerOpen
      ensures completed == {} && bank == map[] && visibility == map[]
    {
      view := Dashboard;
      activeModule := None;
      activeSubTopic := None;
      completed := {};
      managerOpen := false;
      bank := map[];
      visibility := map[];
    }

    /** Start-up: every catalog module visible, then persisted entries override, including ids the catalog no longer has. */
    method LoadVisibility(catalogIds: seq<int>, persisted: Persisted)
      modifies this`visibility
      ensures forall k :: k in visibility <==> k in CatalogKeys(catalogIds) || (persisted.Saved? && k in persisted.ownProperties)
      ensures forall k :: k in visibility ==>
                visibility[k] == if persisted.Saved? && k in persisted.ownProperties
                                 then persisted.ownProperties[k] else JBool(true)
    {
      var defaults := DefaultVisibility(catalogIds);
      match persisted
      case Saved(props) => visibility := defaults + props;
      case _ => visibility := defaults;
    }

    method ToggleModuleVisibility(m: int)
      modifies this`visibility
      ensures visibility == Toggled(old(visibility), m)
    {
      visibility := Toggled(visibility, m);
    }

    /** The editor's list replaces the one under (module, sub-topic); `saved` is false when the assignment throws. */
    method SaveQuestions(m: int, s: string, qs: seq<Question>) returns (saved: bool)
      modifies this`bank
      ensures saved ==> Lookup(bank, m, s) == Some(EncodeQuestions(qs)) && ChangesOnly(old(bank), bank, m, s)
      ensures saved <==> PutSubTopic(old(bank), m, s, EncodeQuestions(qs)).Some?
      ensures !saved ==> bank == old(bank)
    {
      var r := PutSubTopic(bank, m, s, EncodeQuestions(qs));
      saved := r.Some?;
      if saved {
        bank := r.value;
      }
    }

    method ImportQuestions(parsed: Result<Json, string>) returns (error: Option<ImportError>)
      modifies this`bank
      ensures error.None? <==> ImportedBank(parsed).Success?
      ensures bank == if error.None? then ImportedBank(parsed).value else old(bank)
    {
      match ImportedBank(parsed)
      case Success(b) =>
        bank := b;
        error := None;
      case Failure(e) =>
        error := Some(e);
    }

    method ImportSubTopic(m: int, s: string, parsed: Result<Json, string>) returns (error: Option<ImportError>)
      modifies this`bank
      ensures error.None? <==> ImportedSubTopic(old(bank), m, s, parsed).Success?
      ensures error.None? ==> Lookup(bank, m, s) == Some(parsed.value) && ChangesOnly(old(bank), bank, m, s)
      ensures error.Some? ==> bank == old(bank)
    {
      match ImportedSubTopic(bank, m, s, parsed)
      case Success(b) =>
        bank := b;
        error := None;
      case Failure(e) =>
        error := Some(e);
    }

    method StartQuiz(m: int, subTopic: Option<string>)
      modifies this`activeModule, this`activeSubTopic, this`view
      ensures activeModule == Some(m) && view == Quiz
      ensures activeSubTopic == if subTopic.Some? && subTopic.value != "" then subTopic else None
    {
      activeModule := Some(m);
      activeSubTopic := if subTopic.Some? && subTopic.value != "" then subTopic else None;
      view := Quiz;
    }

    method ManageQuestions(m: int, s: string)
      modifies this`activeModule, this`activeSubTopic, this`managerOpen
      ensures activeModule == Some(m) && activeSubTopic == Some(s) && managerOpen
    {
      activeModule := Some(m);
      activeSubTopic := Some(s);
      managerOpen := true;
    }

    /** A module joins the completed set only when the finished quiz covered the whole module. */
    method CompleteQuiz(m: int)
      modifies this`completed, this`view
      ensures view == Completed
      ensures completed == if IsFullModuleQuiz(activeSubTopic) then old(completed) + {m} else old(completed)
    {
      if IsFullModuleQuiz(activeSubTopic) {
        completed := completed + {m};
      }
      view := Completed;
    }

    method ReturnToDashboard()
      modifies this`activeModule, this`activeSubTopic, this`managerOpen, this`view
      ensures activeModule.None? && activeSubTopic.None? && !managerOpen && view == Dashboard
    {
      activeModule := None;
      activeSubTopic := None;
      managerOpen := false;
      view := Dashboard;
    }

    method ResetProgress()
      modifies this`completed
      ensures completed == {}
    {
      completed := {};
    }
  }
}
