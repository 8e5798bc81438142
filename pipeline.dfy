/**
 * `run_analysis` in its three variants: every comment is preprocessed and
 * translated; a truthy translation is classified, counted and recorded as
 * a row; the progress bar advances after each comment; and at the end the
 * dominant label and its percentage are computed.
 */
module Pipeline {
  import opened Options
  import opened Text
  import opened Normalizer
  import opened Translation
  import opened Sentiment
  import opened Aggregate

  /**
   * The three scripts: Telugu-preserving filter and googletrans
   * (`Sentiment_Analysis.py`), Hindi-and-Telugu filter and googletrans with
   * an explicit source (`Sentimentanalysis.py`), and no filter with
   * RapidAPI translation (`Frontend.py`).
   */
  datatype Variant = TeluguScript | HindiTeluguScript | RapidApiFrontend

  /**
   * The libraries and services the scripts call: `html.unescape`, the
   * TextBlob polarity, whether googletrans language detection returns
   * rather than raising, the googletrans translator (`None` when it
   * raises), and the RapidAPI endpoint.
   */
  datatype Services = Services(
    unescape: string -> string,
    polarity: string -> real,
    detects: string -> bool,
    google: Request -> Option<string>,
    rapid: Request -> Response)

  /** The script filter each variant applies. */
  function Policy(v: Variant): ScriptPolicy {
    match v
    case TeluguScript => AsciiTelugu
    case HindiTeluguScript => AsciiDevanagariTelugu
    case RapidApiFrontend => AnyScript
  }

  /** The variant's `preprocess_comment`; only the first script returns early on an empty comment. */
  function PreprocessFor(v: Variant, svc: Services, comment: string): (r: string)
    ensures Collapsed(r)
    ensures forall i :: 0 <= i < |r| ==> Allowed(Policy(v), r[i])
    ensures v == TeluguScript && comment == "" ==> r == ""
  {
    Preprocess(Policy(v), v == TeluguScript, svc.unescape, comment)
  }

  /**
   * The variant's `transliterate_and_translate`: never a request for blank
   * text, always one for other text except where the explicit-source
   * variant's detection raises, and always into English.
   */
  function TranslateFor(v: Variant, svc: Services, text: string): (a: Attempt)
    ensures Blank(text) ==> !a.detected && a.sent.None?
    ensures a.detected <==> v == HindiTeluguScript && !Blank(text)
    ensures v != HindiTeluguScript ==> (a.sent.None? <==> Blank(text))
    ensures a.sent.None? ==> a.result.None?
    ensures a.sent.Some? ==> a.sent.value.text == text && a.sent.value.dest == English
  {
    match v
    case TeluguScript => GoogleTranslate(svc.google, text)
    case HindiTeluguScript => GoogleTranslateWithSource(svc.detects, svc.google, text)
    case RapidApiFrontend => RapidApiTranslate(svc.rapid, text)
  }

  /** One entry of `translations`: four columns, or three in the RapidAPI script. */
  datatype Row =
    | Row4(original: string, preprocessed: string, translated: string, sentiment: Label)
    | Row3(original: string, translated: string, sentiment: Label)

  /** The row a variant records. */
  function MakeRow(v: Variant, original: string, preprocessed: string, translated: string, sentiment: Label): (r: Row)
    ensures r.original == original && r.translated == translated && r.sentiment == sentiment
    ensures r.Row3? <==> v == RapidApiFrontend
    ensures r.Row4? ==> r.preprocessed == preprocessed
  {
    if v == RapidApiFrontend then Row3(original, translated, sentiment)
    else Row4(original, preprocessed, translated, sentiment)
  }

  /**
   * What one comment contributes: a row exactly when its translation is a
   * non-empty string, labelled from the translated text.
   */
  function RowFor(v: Variant, svc: Services, comment: string): (r: Option<Row>)
    ensures var t := TranslateFor(v, svc, PreprocessFor(v, svc, comment)).result;
      r.Some? <==> t.Some? && t.value != ""
    ensures r.Some? ==>
      && r.value.original == comment
      && r.value.translated == TranslateFor(v, svc, PreprocessFor(v, svc, comment)).result.value
      && r.value.sentiment == Classify(svc.polarity(r.value.translated))
      && (r.value.Row3? <==> v == RapidApiFrontend)
    ensures r.Some? && r.value.Row4? ==> r.value.preprocessed == PreprocessFor(v, svc, comment)
  {
    var pre := PreprocessFor(v, svc, comment);
    var t := TranslateFor(v, svc, pre).result;
    if t.Some? && t.value != "" then
      Some(MakeRow(v, comment, pre, t.value, AnalyzeSentiment(svc.polarity, t.value).sentiment))
    else None
  }

  /**
   * What a run keeps of `comments`, in order: the value `f` gives for each
   * comment that yields one.
   */
  function Gather<T>(f: string -> Option<T>, comments: seq<string>): seq<T>
    decreases |comments|
  {
    if comments == [] then []
    else
      var o := f(comments[|comments| - 1]);
      Gather(f, comments[..|comments| - 1]) + (if o.Some? then [o.value] else [])
  }

  /** Gathering keeps the input order: two batches give the first batch's values followed by the second's. */
  lemma {:induction false} GatherAppend<T>(f: string -> Option<T>, a: seq<string>, b: seq<string>)
    ensures Gather(f, a + b) == Gather(f, a) + Gather(f, b)
    decreases |b|
  {
    if b == [] {
      assert a + b == a;
    } else {
      var b' := b[..|b| - 1];
      GatherAppend(f, a, b');
      assert (a + b)[..|a + b| - 1] == a + b';
      assert (a + b)[|a + b| - 1] == b[|b| - 1];
    }
  }

  /** Each comment gives at most one value. */
  lemma {:induction false} GatherBound<T>(f: string -> Option<T>, comments: seq<string>)
    ensures |Gather(f, comments)| <= |comments|
    decreases |comments|
  {
    if comments != [] {
      GatherBound(f, comments[..|comments| - 1]);
    }
  }

  /** One value per comment exactly when every comment gives one. */
  lemma {:induction false} GatherFull<T>(f: string -> Option<T>, comments: seq<string>)
    ensures |Gather(f, comments)| == |comments| <==> forall j :: 0 <= j < |comments| ==> f(comments[j]).Some?
    decreases |comments|
  {
    if comments != [] {
      var init := comments[..|comments| - 1];
      GatherFull(f, init);
      GatherBound(f, init);
      assert forall j :: 0 <= j < |init| ==> init[j] == comments[j];
    }
  }

  /** Nothing is gathered exactly when no comment gives a value. */
  lemma {:induction false} GatherEmpty<T>(f: string -> Option<T>, comments: seq<string>)
    ensures Gather(f, comments) == [] <==> forall j :: 0 <= j < |comments| ==> f(comments[j]).None?
    decreases |comments|
  {
    if comments != [] {
      var init := comments[..|comments| - 1];
      GatherEmpty(f, init);
      assert forall j :: 0 <= j < |init| ==> init[j] == comments[j];
    }
  }

  /** Every gathered value is a value `f` gives for some comment. */
  lemma {:induction false} GatherFrom<T>(f: string -> Option<T>, comments: seq<string>)
    ensures forall k :: 0 <= k < |Gather(f, comments)| ==>
      exists j :: 0 <= j < |comments| && f(comments[j]) == Some(Gather(f, comments)[k])
    decreases |comments|
  {
    if comments != [] {
      var init := comments[..|comments| - 1];
      GatherFrom(f, init);
      var g := Gather(f, comments);
      var last := f(comments[|comments| - 1]);
      assert g == Gather(f, init) + (if last.Some? then [last.value] else []);
      forall k | 0 <= k < |g| ensures exists j :: 0 <= j < |comments| && f(comments[j]) == Some(g[k]) {
        if k < |Gather(f, init)| {
          var j :| 0 <= j < |init| && f(init[j]) == Some(Gather(f, init)[k]);
          assert comments[j] == init[j] && g[k] == Gather(f, init)[k];
          assert 0 <= j < |comments| && f(comments[j]) == Some(g[k]);
        } else {
          assert 0 <= |comments| - 1 < |comments| && f(comments[|comments| - 1]) == Some(g[k]);
        }
      }
      assert forall k :: 0 <= k < |g| ==> exists j :: 0 <= j < |comments| && f(comments[j]) == Some(g[k]);
    } else {
      assert Gather(f, comments) == [];
    }
  }

  /** Gathering one more comment appends its value, if it has one. */
  lemma GatherStep<T>(f: string -> Option<T>, comments: seq<string>, i: nat)
    requires i < |comments|
    ensures Gather(f, comments[..i + 1])
      == Gather(f, comments[..i]) + (if f(comments[i]).Some? then [f(comments[i]).value] else [])
  {
    assert comments[..i + 1][..i] == comments[..i];
  }

  /** The step that turns one comment into its row, if any. */
  function RowStep(v: Variant, svc: Services): string -> Option<Row> {
    c => RowFor(v, svc, c)
  }

  /** The rows of a run over `comments`, in comment order. */
  function RowsOf(v: Variant, svc: Services, comments: seq<string>): seq<Row> {
    Gather(RowStep(v, svc), comments)
  }

  /** Rows keep the input order: the rows of two batches are the rows of the first followed by those of the second. */
  lemma RowsOfAppend(v: Variant, svc: Services, a: seq<string>, b: seq<string>)
    ensures RowsOf(v, svc, a + b) == RowsOf(v, svc, a) + RowsOf(v, svc, b)
  {
    GatherAppend(RowStep(v, svc), a, b);
  }

  /** Each comment contributes at most one row, and there is one row per comment exactly when none is skipped. */
  lemma RowsBound(v: Variant, svc: Services, comments: seq<string>)
    ensures |RowsOf(v, svc, comments)| <= |comments|
    ensures |RowsOf(v, svc, comments)| == |comments| <==> forall j :: 0 <= j < |comments| ==> RowFor(v, svc, comments[j]).Some?
  {
    GatherBound(RowStep(v, svc), comments);
    GatherFull(RowStep(v, svc), comments);
  }

  /**
   * Every row comes from some comment, holds that comment's non-empty
   * translation, is labelled from that translation, and has three columns
   * exactly in the RapidAPI script.
   */
  lemma RowsSound(v: Variant, svc: Services, comments: seq<string>)
    ensures forall k :: 0 <= k < |RowsOf(v, svc, comments)| ==>
      var r := RowsOf(v, svc, comments)[k];
      && (exists j :: 0 <= j < |comments| && RowFor(v, svc, comments[j]) == Some(r))
      && r.translated != "" && r.sentiment == Classify(svc.polarity(r.translated))
      && (r.Row3? <==> v == RapidApiFrontend)
  {
    GatherFrom(RowStep(v, svc), comments);
    var rows := RowsOf(v, svc, comments);
    forall k | 0 <= k < |rows|
      ensures && (exists j :: 0 <= j < |comments| && RowFor(v, svc, comments[j]) == Some(rows[k]))
              && rows[k].translated != "" && rows[k].sentiment == Classify(svc.polarity(rows[k].translated))
              && (rows[k].Row3? <==> v == RapidApiFrontend)
    {
      var j :| 0 <= j < |comments| && RowStep(v, svc)(comments[j]) == Some(rows[k]);
      assert RowFor(v, svc, comments[j]) == Some(rows[k]);
    }
  }

  /** No row survives exactly when every comment is skipped. */
  lemma NoRowsIffAllSkipped(v: Variant, svc: Services, comments: seq<string>)
    ensures RowsOf(v, svc, comments) == [] <==> forall j :: 0 <= j < |comments| ==> RowFor(v, svc, comments[j]).None?
  {
    GatherEmpty(RowStep(v, svc), comments);
  }

  /** A comment that preprocesses to blank text is skipped without any call to a translation service. */
  lemma BlankIsSkipped(v: Variant, svc: Services, comment: string)
    requires Blank(PreprocessFor(v, svc, comment))
    ensures !TranslateFor(v, svc, PreprocessFor(v, svc, comment)).detected
    ensures TranslateFor(v, svc, PreprocessFor(v, svc, comment)).sent.None?
    ensures RowFor(v, svc, comment).None?
  {
  }

  /** In the first script an empty comment is skipped before the unescape step is reached. */
  lemma EmptyCommentSkipped(svc: Services)
    ensures PreprocessFor(TeluguScript, svc, "") == ""
    ensures RowFor(TeluguScript, svc, "").None?
  {
  }

  /** In the RapidAPI script a reply without a `translation` member is recorded and counted with the placeholder text. */
  lemma PlaceholderIsCounted(svc: Services, comment: string)
    requires var pre := PreprocessFor(RapidApiFrontend, svc, comment);
      !Blank(pre) && svc.rapid(Request(pre, Auto, English)) == Reply(200, Json(Missing))
    ensures RowFor(RapidApiFrontend, svc, comment)
      == Some(Row3(comment, NoTranslation, Classify(svc.polarity(NoTranslation))))
  {
    MissingFieldYieldsPlaceholder(svc.rapid, PreprocessFor(RapidApiFrontend, svc, comment));
  }

  // ---------------------------------------------------------------------
  // Counting
  // ---------------------------------------------------------------------

  /** How many rows carry label `l`. */
  function CountOf(rows: seq<Row>, l: Label): nat
    decreases |rows|
  {
    if rows == [] then 0
    else CountOf(rows[..|rows| - 1], l) + (if rows[|rows| - 1].sentiment == l then 1 else 0)
  }

  /** The per-label counts of a list of rows, as a complete `sentiment_counts` dictionary. */
  function Tally(rows: seq<Row>): (counts: map<Label, nat>)
    ensures Complete(counts)
    ensures forall l :: counts[l] == CountOf(rows, l)
  {
    var counts := map[Positive := CountOf(rows, Positive), Negative := CountOf(rows, Negative), Neutral := CountOf(rows, Neutral)];
    TallyLookup(rows, counts);
    counts
  }

  /** The dictionary built from the three counts has every label, each with its count. */
  lemma TallyLookup(rows: seq<Row>, counts: map<Label, nat>)
    requires counts == map[Positive := CountOf(rows, Positive), Negative := CountOf(rows, Negative), Neutral := CountOf(rows, Neutral)]
    ensures Complete(counts)
    ensures forall l :: l in counts && counts[l] == CountOf(rows, l)
  {
    forall l ensures l in counts && counts[l] == CountOf(rows, l) {
      match l
      case Positive =>
      case Negative =>
      case Neutral =>
    }
  }

  /** Appending a row raises its label's count by one and leaves the others. */
  lemma TallyStep(rows: seq<Row>, r: Row)
    ensures Tally(rows + [r]) == Tally(rows)[r.sentiment := Tally(rows)[r.sentiment] + 1]
  {
    var rows' := rows + [r];
    assert rows'[..|rows'| - 1] == rows;
    var lhs, rhs := Tally(rows'), Tally(rows)[r.sentiment := Tally(rows)[r.sentiment] + 1];
    forall l ensures lhs[l] == rhs[l] {
      assert lhs[l] == CountOf(rows', l);
    }
    assert lhs.Keys == rhs.Keys by {
      forall l ensures l in lhs <==> l in rhs {
      }
    }
  }

  /** Counting one more row updates the dictionary as the loop does. */
  lemma TallyBump(counts: map<Label, nat>, rows: seq<Row>, r: Row)
    requires counts == Tally(rows)
    ensures r.sentiment in counts
    ensures counts[r.sentiment := counts[r.sentiment] + 1] == Tally(rows + [r])
  {
    TallyStep(rows, r);
  }

  /** The counts of no rows are the initial all-zero dictionary. */
  lemma TallyEmpty()
    ensures Tally([]) == Zero()
  {
    assert Tally([]).Keys == Zero().Keys by {
      forall l ensures l in Tally([]) <==> l in Zero() {
        match l
        case Positive =>
        case Negative =>
        case Neutral =>
      }
    }
  }

  /** The three counts add up to the number of rows, not the number of comments. */
  lemma {:induction false} TallyTotal(rows: seq<Row>)
    ensures Total(Tally(rows)) == |rows|
    decreases |rows|
  {
    if rows != [] {
      var init := rows[..|rows| - 1];
      TallyTotal(init);
      assert init + [rows[|rows| - 1]] == rows;
      TallyStep(init, rows[|rows| - 1]);
    }
  }

  /** The percentage divides by zero exactly when no row survived. */
  lemma ZeroDivisionIffNoRows(rows: seq<Row>)
    ensures Summarize(Tally(rows)).ZeroDivision? <==> rows == []
  {
    TallyTotal(rows);
  }

  /** A run whose every comment was skipped ends in the division by zero. */
  lemma AllSkippedDividesByZero(v: Variant, svc: Services, comments: seq<string>)
    requires forall j :: 0 <= j < |comments| ==> RowFor(v, svc, comments[j]).None?
    ensures Summarize(Tally(RowsOf(v, svc, comments))).ZeroDivision?
  {
    NoRowsIffAllSkipped(v, svc, comments);
    ZeroDivisionIffNoRows(RowsOf(v, svc, comments));
  }

  /** In the first script a list of empty comments passes the empty-list guard and then divides by zero. */
  lemma EmptyCommentsDivideByZero(svc: Services, k: nat)
    requires k > 0
    ensures var comments := seq(k, _ => "");
      comments != [] && Summarize(Tally(RowsOf(TeluguScript, svc, comments))).ZeroDivision?
  {
    var comments := seq(k, _ => "");
    forall j | 0 <= j < |comments| ensures RowFor(TeluguScript, svc, comments[j]).None? {
      EmptyCommentSkipped(svc);
    }
    AllSkippedDividesByZero(TeluguScript, svc, comments);
  }

  /** Without the empty-list guard an empty list also reaches the division by zero. */
  lemma EmptyListDividesByZero(v: Variant, svc: Services)
    ensures RowsOf(v, svc, []) == [] && Summarize(Tally(RowsOf(v, svc, []))).ZeroDivision?
    ensures ProgressTrace(v, 0, 0) == [Percent(0)]
  {
    ZeroDivisionIffNoRows([]);
  }

  // ---------------------------------------------------------------------
  // Progress
  // ---------------------------------------------------------------------

  /** A value passed to `progress_bar.progress`: a fraction in [0, 1], or whole percent. */
  datatype Progress = Fraction(share: real) | Percent(points: int)

  /**
   * The progress after comment `i` of `n`: `(i + 1) / n` in the first
   * script, `min(int((i + 1) / n * 100), 100)` in the other two.
   */
  function ProgressAt(v: Variant, i: nat, n: nat): Progress
    requires i < n
  {
    if v == TeluguScript then Fraction((i + 1) as real / n as real)
    else
      var p := (i + 1) * 100 / n;
      Percent(if p < 100 then p else 100)
  }

  /** The progress values shown during the first `k` of `n` comments, starting with the initial `progress(0)`. */
  function ProgressTrace(v: Variant, n: nat, k: nat): (trace: seq<Progress>)
    requires k <= n
    ensures |trace| == k + 1
    decreases k
  {
    if k == 0 then [Percent(0)] else ProgressTrace(v, n, k - 1) + [ProgressAt(v, k - 1, n)]
  }

  /** One more comment adds its progress value at the end. */
  lemma ProgressStep(v: Variant, n: nat, i: nat)
    requires i < n
    ensures ProgressTrace(v, n, i + 1) == ProgressTrace(v, n, i) + [ProgressAt(v, i, n)]
  {
  }

  /** The share of the bar a progress value fills, between 0 and 1. */
  function Level(p: Progress): real {
    match p
    case Fraction(x) => x
    case Percent(k) => k as real / 100.0
  }

  /** The fractional progress rises strictly with every comment and stays in (0, 1]. */
  lemma FractionRises(n: nat, i: nat, j: nat)
    requires i < j < n
    ensures 0.0 < ProgressAt(TeluguScript, i, n).share < ProgressAt(TeluguScript, j, n).share <= 1.0
  {
    RealDivLess((i + 1) as real, (j + 1) as real, n as real);
    FractionBound(n, i);
    FractionBound(n, j);
  }

  /** Each fractional progress value lies in (0, 1]. */
  lemma FractionBound(n: nat, i: nat)
    requires i < n
    ensures 0.0 < ProgressAt(TeluguScript, i, n).share <= 1.0
  {
    RealDivLess(0.0, (i + 1) as real, n as real);
    RealDivAtMostOne((i + 1) as real, n as real);
  }

  /** A share of at most the whole is at most 1. */
  lemma RealDivAtMostOne(a: real, d: real)
    requires 0.0 <= a <= d && d > 0.0
    ensures a / d <= 1.0
  {
    var inv := 1.0 / d;
    assert d * inv == 1.0;
    assert a / d == a * inv;
    MulNonNegative(d - a, inv);
    assert (d - a) * inv == d * inv - a * inv;
  }

  /** Dividing by a positive real keeps strict order. */
  lemma RealDivLess(a: real, b: real, d: real)
    requires a < b && d > 0.0
    ensures a / d < b / d
  {
    var inv := 1.0 / d;
    assert inv > 0.0;
    assert a / d == a * inv && b / d == b * inv;
    assert (b - a) * inv > 0.0;
  }

  /** Whole-number division keeps order. */
  lemma DivMonotone(a: nat, b: nat, n: nat)
    requires a <= b && n > 0
    ensures a / n <= b / n
  {
    var qa, qb := a / n, b / n;
    assert a == n * qa + a % n && b == n * qb + b % n;
    if qa > qb {
      MulLess(n, qb, qa);
      assert false;
    }
  }

  /** A larger natural factor gives a product larger by at least the other factor. */
  lemma MulLess(n: nat, x: nat, y: nat)
    requires x < y
    ensures n * x + n <= n * y
    decreases y - x
  {
    assert n * y == n * (y - 1) + n;
    if y - 1 > x {
      MulLess(n, x, y - 1);
    }
  }

  /** Whole-percent progress stays within 0 to 100, never goes down, and is 100 after the last comment. */
  lemma PercentRises(v: Variant, n: nat, i: nat, j: nat)
    requires v != TeluguScript && i <= j < n
    ensures 0 <= ProgressAt(v, i, n).points <= ProgressAt(v, j, n).points <= 100
    ensures ProgressAt(v, n - 1, n) == Percent(100)
  {
    var a, b := (i + 1) * 100, (j + 1) * 100;
    DivMonotone(a, b, n);
    PercentFull(v, n);
  }

  /** After the last comment the truncated percentage is exactly 100. */
  lemma PercentFull(v: Variant, n: nat)
    requires v != TeluguScript && n > 0
    ensures ProgressAt(v, n - 1, n) == Percent(100)
  {
    assert (n - 1 + 1) * 100 == n * 100;
    DivExact(n, 100);
  }

  /** Dividing a multiple of `n` by `n` gives the other factor back. */
  lemma DivExact(n: nat, k: nat)
    requires n > 0
    ensures n * k / n == k
  {
    var q, r := n * k / n, n * k % n;
    assert n * k == n * q + r && 0 <= r < n;
    if q < k {
      MulLess(n, q, k);
    } else if q > k {
      MulLess(n, k, q);
    }
  }

  /** The trace is the initial 0 followed by the value after each comment. */
  lemma {:induction false} TraceShape(v: Variant, n: nat, k: nat)
    requires k <= n
    ensures ProgressTrace(v, n, k)[0] == Percent(0)
    ensures forall a :: 1 <= a <= k ==> ProgressTrace(v, n, k)[a] == ProgressAt(v, a - 1, n)
    decreases k
  {
    if k > 0 {
      TraceShape(v, n, k - 1);
    }
  }

  /** The level after comment `i` never falls below the level after an earlier one. */
  lemma LevelRises(v: Variant, n: nat, i: nat, j: nat)
    requires i <= j < n
    ensures 0.0 < Level(ProgressAt(v, i, n)) || (v != TeluguScript && Level(ProgressAt(v, i, n)) == 0.0)
    ensures Level(ProgressAt(v, i, n)) <= Level(ProgressAt(v, j, n)) <= 1.0
  {
    if v == TeluguScript {
      FractionBound(n, i);
      FractionBound(n, j);
      if i < j {
        FractionRises(n, i, j);
      }
    } else {
      PercentRises(v, n, i, j);
    }
  }

  /**
   * In every variant the bar never moves back during a run, stays within
   * [0, 1], and is full after the last comment.
   */
  lemma TraceNeverFalls(v: Variant, n: nat)
    ensures var trace := ProgressTrace(v, n, n);
      && (forall a, b :: 0 <= a <= b < |trace| ==> 0.0 <= Level(trace[a]) <= Level(trace[b]) <= 1.0)
      && (n > 0 ==> Level(trace[n]) == 1.0)
  {
    var trace := ProgressTrace(v, n, n);
    TraceShape(v, n, n);
    forall a, b | 0 <= a <= b < |trace| ensures 0.0 <= Level(trace[a]) <= Level(trace[b]) <= 1.0 {
      if a == 0 {
        if b > 0 {
          LevelRises(v, n, b - 1, b - 1);
        }
      } else {
        LevelRises(v, n, a - 1, b - 1);
      }
    }
    if n > 0 {
      if v == TeluguScript {
        FractionFull(n);
      } else {
        PercentRises(v, n, n - 1, n - 1);
      }
    }
  }

  /** The fractional progress after the last comment is exactly 1. */
  lemma FractionFull(n: nat)
    requires n > 0
    ensures ProgressAt(TeluguScript, n - 1, n) == Fraction(1.0)
  {
    var r := n as real;
    assert r / r == 1.0 by {
      assert r * (1.0 / r) == 1.0;
    }
  }

  // ---------------------------------------------------------------------
  // The run
  // ---------------------------------------------------------------------

  /** The outcome of `run_analysis`: the early return on no comments, or the rows, counts, progress and summary. */
  datatype Report =
    | NoComments
    | Finished(rows: seq<Row>, counts: map<Label, nat>, progress: seq<Progress>, summary: Summary)

  /**
   * The loop of `run_analysis`: for each comment in turn, apply the
   * per-comment step; when it yields a row, raise that row's label count
   * by one and append the row; then append the progress value.
   */
  method Accumulate(v: Variant, step: string -> Option<Row>, comments: seq<string>)
    returns (rows: seq<Row>, counts: map<Label, nat>, progress: seq<Progress>)
    ensures rows == Gather(step, comments)
    ensures counts == Tally(rows)
    ensures progress == ProgressTrace(v, |comments|, |comments|)
  {
    var total := |comments|;
    counts := Zero();
    rows := [];
    progress := [Percent(0)];
    TallyEmpty();
    for i := 0 to total
      invariant rows == Gather(step, comments[..i])
      invariant counts == Tally(rows)
      invariant progress == ProgressTrace(v, total, i)
    {
      var row := step(comments[i]);
      GatherStep(step, comments, i);
      if row.Some? {
        var sentiment := row.value.sentiment;
        TallyBump(counts, rows, row.value);
        counts := counts[sentiment := counts[sentiment] + 1];
        rows := rows + [row.value];
      }
      ProgressStep(v, total, i);
      progress := progress + [ProgressAt(v, i, total)];
    }
    assert comments[..total] == comments;
  }

  /**
   * `run_analysis`: only the first script stops early on an empty list;
   * otherwise the rows are those of `RowsOf` in comment order, the counts
   * are their tally, the progress bar shows `ProgressTrace`, and the
   * summary is computed from the counts.
   */
  method RunAnalysis(v: Variant, svc: Services, comments: seq<string>) returns (report: Report)
    ensures report.NoComments? <==> v == TeluguScript && comments == []
    ensures report.Finished? ==>
      && report.rows == RowsOf(v, svc, comments)
      && report.counts == Tally(report.rows)
      && report.progress == ProgressTrace(v, |comments|, |comments|)
      && report.summary == Summarize(report.counts)
  {
    var total := |comments|;
    if v == TeluguScript && total == 0 {
      return NoComments;
    }
    var rows, counts, progress := Accumulate(v, RowStep(v, svc), comments);
    return Finished(rows, counts, progress, Summarize(counts));
  }
}
