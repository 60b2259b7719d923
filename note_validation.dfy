/**
 * The rule list that guards note writes. Each field has a chain run in
 * order: title is trimmed, must be non-empty, and must be at most 255
 * characters; content is trimmed and must be non-empty; tags may be left
 * out, but when given must be an array. Every failing rule adds one error,
 * in chain order, and the trimming sanitisers rewrite the body that the
 * controller later reads.
 */
module NoteValidation {
  import opened Wrappers
  import opened Text
  import NoteModel

  /** The JSON value of `tags` in a request body. */
  datatype TagsValue = Omitted | Array(items: seq<string>) | NotArray

  /** The fields of a request body that the rules look at. */
  datatype Body = Body(title: Option<string>, content: Option<string>, tags: TagsValue)

  /** The rule behind one entry of the validation result. */
  datatype FieldError = TitleRequired | TitleTooLong | ContentRequired | TagsNotArray {

    /** The body field the failing rule belongs to. */
    function Path(): string {
      match this
      case TitleRequired | TitleTooLong => "title"
      case ContentRequired => "content"
      case TagsNotArray => "tags"
    }

    /** The position of the rule in the rule list: the title chain, then content, then tags. */
    function Rank(): nat {
      match this
      case TitleRequired => 0
      case TitleTooLong => 1
      case ContentRequired => 2
      case TagsNotArray => 3
    }

    /** The message the rule reports. */
    function Msg(): string {
      match this
      case TitleRequired => "Title is required"
      case TitleTooLong => "Title must be less than 255 characters"
      case ContentRequired => "Content is required"
      case TagsNotArray => "Tags must be an array"
    }
  }

  /** Errors listed in rule-list order: each one's rule comes strictly after the one before. */
  predicate InRuleOrder(errors: seq<FieldError>) {
    |errors| <= 1 || (errors[0].Rank() < errors[1].Rank() && InRuleOrder(errors[1..]))
  }

  /** Rule order, pairwise: every error's rule comes before every later one's, so no rule repeats. */
  lemma {:induction false} InRuleOrderPairwise(errors: seq<FieldError>)
    ensures InRuleOrder(errors) <==>
      forall i, j :: 0 <= i < j < |errors| ==> errors[i].Rank() < errors[j].Rank()
  {
    if |errors| > 1 {
      var rest := errors[1..];
      InRuleOrderPairwise(rest);
      if InRuleOrder(errors) {
        forall i, j | 0 <= i < j < |errors| ensures errors[i].Rank() < errors[j].Rank() {
          assert errors[j] == rest[j - 1];
          if i > 0 {
            assert errors[i] == rest[i - 1];
          } else if j > 1 {
            assert errors[1] == rest[0];
          }
        }
      }
      if forall i, j :: 0 <= i < j < |errors| ==> errors[i].Rank() < errors[j].Rank() {
        forall i, j | 0 <= i < j < |rest| ensures rest[i].Rank() < rest[j].Rank() {
          assert rest[i] == errors[i + 1] && rest[j] == errors[j + 1];
        }
        assert errors[0].Rank() < errors[1].Rank();
      }
    }
  }

  /** A request after the rule chain: its sanitised body and the errors collected, in rule order. */
  datatype Checked = Checked(body: Body, errors: seq<FieldError>)

  function TrimField(v: Option<string>): Option<string> {
    match v
    case None => None
    case Some(s) => Some(Trim(s))
  }

  /** The title chain on the trimmed value: `notEmpty`, then `isLength({max: 255})`. */
  function TitleErrors(title: Option<string>): (r: seq<FieldError>)
    ensures TitleRequired in r <==> title.None? || title.value == []
    ensures TitleTooLong in r <==> title.Some? && |title.value| > NoteModel.MaxTitleLength
    ensures ContentRequired !in r && TagsNotArray !in r && |r| <= 1
  {
    var t := if title.Some? then title.value else "";
    (if t == [] then [TitleRequired] else [])
    + (if |t| <= NoteModel.MaxTitleLength then [] else [TitleTooLong])
  }

  /** The content chain on the trimmed value: `notEmpty`. */
  function ContentErrors(content: Option<string>): (r: seq<FieldError>)
    ensures r == [] <==> content.Some? && content.value != []
    ensures r == [] || r == [ContentRequired]
  {
    if content.None? || content.value == [] then [ContentRequired] else []
  }

  /** The tags chain: `optional()` skips a missing value, `isArray()` checks the rest. */
  function TagsErrors(tags: TagsValue): (r: seq<FieldError>)
    ensures r == [] <==> !tags.NotArray?
    ensures r == [] || r == [TagsNotArray]
  {
    if tags.NotArray? then [TagsNotArray] else []
  }

  /** A sanitised body that every rule accepts. */
  predicate Passes(b: Body) {
    && b.title.Some? && 1 <= |b.title.value| <= NoteModel.MaxTitleLength
    && b.content.Some? && b.content.value != []
    && !b.tags.NotArray?
  }

  /**
   * Runs the three chains over a raw body. The body passed on has title and
   * content trimmed and tags as given; the error list is empty exactly when
   * that body passes, and each message is present exactly when its rule fails.
   */
  function Validate(raw: Body): (c: Checked)
    ensures c.body.tags == raw.tags
    ensures c.body.title.Some? <==> raw.title.Some?
    ensures c.body.content.Some? <==> raw.content.Some?
    ensures raw.title.Some? ==> c.body.title.value == Trim(raw.title.value)
    ensures raw.content.Some? ==> c.body.content.value == Trim(raw.content.value)
    ensures c.errors == [] <==> Passes(c.body)
    ensures TitleRequired in c.errors <==> raw.title.None? || AllSpace(raw.title.value)
    ensures TitleTooLong in c.errors <==> raw.title.Some? && |Trim(raw.title.value)| > NoteModel.MaxTitleLength
    ensures ContentRequired in c.errors <==> raw.content.None? || AllSpace(raw.content.value)
    ensures TagsNotArray in c.errors <==> raw.tags.NotArray?
    ensures |c.errors| <= 3
    ensures InRuleOrder(c.errors)
  {
    var b := Body(TrimField(raw.title), TrimField(raw.content), raw.tags);
    assert raw.title.Some? ==> (b.title.value == [] <==> AllSpace(raw.title.value));
    assert raw.content.Some? ==> (b.content.value == [] <==> AllSpace(raw.content.value));
    Checked(b, Errors(b))
  }

  /** The errors of the three chains on a sanitised body, in rule order. */
  function Errors(b: Body): (r: seq<FieldError>)
    ensures r == [] <==> Passes(b)
    ensures TitleRequired in r <==> b.title.None? || b.title.value == []
    ensures TitleTooLong in r <==> b.title.Some? && |b.title.value| > NoteModel.MaxTitleLength
    ensures ContentRequired in r <==> b.content.None? || b.content.value == []
    ensures TagsNotArray in r <==> b.tags.NotArray?
    ensures |r| <= 3
    ensures InRuleOrder(r)
  {
    ChainsInRuleOrder(TitleErrors(b.title), ContentErrors(b.content), TagsErrors(b.tags));
    TitleErrors(b.title) + ContentErrors(b.content) + TagsErrors(b.tags)
  }

  /** The three chains, concatenated, list their errors in rule order. */
  lemma ChainsInRuleOrder(t: seq<FieldError>, c: seq<FieldError>, g: seq<FieldError>)
    requires |t| <= 1 && ContentRequired !in t && TagsNotArray !in t
    requires c == [] || c == [ContentRequired]
    requires g == [] || g == [TagsNotArray]
    ensures InRuleOrder(t + c + g)
  {
    var e := t + c + g;
    assert InRuleOrder(c + g) by {
      if c != [] && g != [] {
        assert (c + g)[1..] == g;
      }
    }
    if t != [] {
      assert t[0].Rank() <= 1;
      assert e == [t[0]] + (c + g);
      assert e[1..] == c + g;
    }
  }

  /** The sanitised values are already trimmed: running the rules again changes nothing. */
  lemma ValidateIdempotent(raw: Body)
    ensures Validate(Validate(raw).body) == Validate(raw)
  {
    if raw.title.Some? {
      TrimIdempotent(raw.title.value);
    }
    if raw.content.Some? {
      TrimIdempotent(raw.content.value);
    }
  }

  /** An empty body fails both required fields, title first, and nothing else. */
  lemma EmptyBodyRejected()
    ensures Validate(Body(None, None, Omitted)).errors == [TitleRequired, ContentRequired]
  {
  }

  /**
   * The length limit is inclusive: a title of exactly 255 characters with no
   * surrounding whitespace passes, although the message says "less than".
   */
  lemma {:induction false} TitleLimitInclusive(title: string, content: string)
    requires |title| == NoteModel.MaxTitleLength && !IsSpace(title[0]) && !IsSpace(title[|title| - 1])
    requires !AllSpace(content)
    ensures Validate(Body(Some(title), Some(content), Omitted)).errors == []
  {
    TrimFixesTrimmed(title);
  }

  /** A body that passes the rules meets every column constraint of the note table. */
  lemma PassingBodyIsStorable(b: Body, id: NoteModel.Id, now: nat)
    requires Passes(b)
    ensures NoteModel.Create(id, AsAttributes(b), now).Success?
  {
  }

  /** The attributes the ORM receives from a sanitised body. */
  function AsAttributes(b: Body): NoteModel.Attributes {
    NoteModel.Attributes(b.title, b.content, if b.tags.Array? then Some(b.tags.items) else None)
  }
}
