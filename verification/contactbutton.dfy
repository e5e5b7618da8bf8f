/** The contact link: a Gmail compose URL whose query is built with
    `URLSearchParams`, an accessible label naming the recipient, and a
    default caption. */
module ContactButton {
  import opened Wrappers
  import opened Seqs
  import opened Strings
  import opened Content
  import opened FormUrlEncoded

  const DefaultSubject := "Project Inquiry"
  const DefaultBody := ""
  const DefaultCaption := "Contact Us"
  const ComposeUrl := "https://mail.google.com/mail/?"
  const AriaPrefix := "Send email to "

  /** The parameter names in the order the builder may append them. */
  const ParamOrder: seq<string> := ["view", "fs", "to", "su", "body"]

  /** `subject` and `body` are `None` when the prop is not passed, which is
      when the destructuring defaults apply. */
  datatype Props = Props(to: string, subject: Option<string>, body: Option<string>, children: Option<Node>)

  datatype Anchor = Anchor(href: string, target: string, rel: string, ariaLabel: string, content: Node)

  function Names(pairs: seq<Pair>): (r: seq<string>)
    ensures |r| == |pairs| && forall i :: 0 <= i < |r| ==> r[i] == pairs[i].0
  {
    seq(|pairs|, i requires 0 <= i < |pairs| => pairs[i].0)
  }

  /** `URLSearchParams.prototype.get`: the value of the first pair with the
      name. */
  function Get(pairs: seq<Pair>, name: string): (r: Option<string>)
    ensures r.None? <==> name !in Names(pairs)
    ensures r.Some? ==> (name, r.value) in pairs
  {
    if |pairs| == 0 then None
    else if pairs[0].0 == name then Some(pairs[0].1)
    else
      assert Names(pairs) == [pairs[0].0] + Names(pairs[1..]);
      Get(pairs[1..], name)
  }

  /** The value read is the one of the first pair with the name: every
      earlier pair has another name. */
  lemma {:induction false} GetIsFirst(pairs: seq<Pair>, name: string)
    requires Get(pairs, name).Some?
    ensures exists i :: 0 <= i < |pairs| && pairs[i] == (name, Get(pairs, name).value) &&
                        forall j :: 0 <= j < i ==> pairs[j].0 != name
  {
    if pairs[0].0 != name {
      GetIsFirst(pairs[1..], name);
      var i :| 0 <= i < |pairs[1..]| && pairs[1..][i] == (name, Get(pairs, name).value) &&
               forall j :: 0 <= j < i ==> pairs[1..][j].0 != name;
      assert pairs[i + 1] == (name, Get(pairs, name).value);
      assert forall j :: 0 <= j < i + 1 ==> pairs[j].0 != name by {
        forall j | 0 <= j < i + 1 ensures pairs[j].0 != name {
          if j > 0 { assert pairs[j] == pairs[1..][j - 1]; }
        }
      }
    } else {
      assert pairs[0] == (name, Get(pairs, name).value);
    }
  }

  /** The subject and body after the defaults for absent props. */
  function SubjectOf(p: Props): string { p.subject.GetOr(DefaultSubject) }
  function BodyOf(p: Props): string { p.body.GetOr(DefaultBody) }

  /** The pairs appended to the search params: `view=cm`, `fs=1` and the
      recipient always, the subject and the body only when non-empty. */
  function QueryPairs(p: Props): (r: seq<Pair>)
    ensures 3 <= |r| <= 5
    ensures r[..3] == [("view", "cm"), ("fs", "1"), ("to", p.to)]
  {
    [("view", "cm"), ("fs", "1"), ("to", p.to)] +
    Optional("su", SubjectOf(p)) + Optional("body", BodyOf(p))
  }

  /** A parameter appended only when its value is truthy, that is non-empty. */
  function Optional(name: string, value: string): (r: seq<Pair>)
    ensures Get(r, name) == (if value == "" then None else Some(value))
    ensures forall n :: n != name ==> n !in Names(r)
  {
    if value != "" then [(name, value)] else []
  }

  /** The parameters come in the fixed order, each at most once. */
  lemma QueryPairsOrder(p: Props)
    ensures IsSubsequence(Names(QueryPairs(p)), ParamOrder)
    ensures NoDuplicates(Names(QueryPairs(p)))
  {
    var names := Names(QueryPairs(p));
    var su := SubjectOf(p);
    var bd := BodyOf(p);
    assert ParamOrder == ["view", "fs", "to"] + ["su", "body"];
    if su != "" && bd != "" {
      assert names == ["view", "fs", "to", "su", "body"];
    } else if su != "" {
      assert names == ["view", "fs", "to", "su"];
    } else if bd != "" {
      assert names == ["view", "fs", "to", "body"];
    } else {
      assert names == ["view", "fs", "to"];
    }
  }

  /** Each parameter reads back as appended: the fixed ones and the
      recipient always, the subject and the body exactly when they are
      non-empty. */
  lemma QueryPairsContent(p: Props)
    ensures Get(QueryPairs(p), "view") == Some("cm") && Get(QueryPairs(p), "fs") == Some("1")
    ensures Get(QueryPairs(p), "to") == Some(p.to)
    ensures Get(QueryPairs(p), "su") == (if SubjectOf(p) == "" then None else Some(SubjectOf(p)))
    ensures Get(QueryPairs(p), "body") == (if BodyOf(p) == "" then None else Some(BodyOf(p)))
  {
    var fixed := [("view", "cm"), ("fs", "1"), ("to", p.to)];
    var su := Optional("su", SubjectOf(p));
    var bd := Optional("body", BodyOf(p));
    assert QueryPairs(p) == fixed + (su + bd);
    GetFixed(p.to, su + bd);
    OptionalNamesAfterFixed(p.to);
    GetAfter(fixed, su + bd, "su");
    GetAfter(fixed, su + bd, "body");
    GetOptionals(SubjectOf(p), BodyOf(p));
  }

  lemma OptionalNamesAfterFixed(to: string)
    ensures "su" !in Names([("view", "cm"), ("fs", "1"), ("to", to)])
    ensures "body" !in Names([("view", "cm"), ("fs", "1"), ("to", to)])
  {
    assert Names([("view", "cm"), ("fs", "1"), ("to", to)]) == ["view", "fs", "to"];
    assert "su"[0] !in ['v', 'f', 't'] && |"body"| == 4 && "body"[0] != 'v';
  }

  lemma GetOptionals(subject: string, body: string)
    ensures Get(Optional("su", subject) + Optional("body", body), "su") ==
            (if subject == "" then None else Some(subject))
    ensures Get(Optional("su", subject) + Optional("body", body), "body") ==
            (if body == "" then None else Some(body))
  {
    assert "body" != "su" by { assert |"body"| != |"su"|; }
    GetAfter(Optional("su", subject), Optional("body", body), "body");
    if subject != "" {
      assert (Optional("su", subject) + Optional("body", body))[0] == ("su", subject);
    } else {
      assert Optional("su", subject) + Optional("body", body) == Optional("body", body);
    }
  }

  lemma GetFixed(to: string, rest: seq<Pair>)
    ensures var pairs := [("view", "cm"), ("fs", "1"), ("to", to)] + rest;
      Get(pairs, "view") == Some("cm") && Get(pairs, "fs") == Some("1") && Get(pairs, "to") == Some(to)
  {
    var pairs := [("view", "cm"), ("fs", "1"), ("to", to)] + rest;
    assert pairs[0].0 != "to" && pairs[0].0 != "fs" by { assert |pairs[0].0| == 4; }
    assert pairs[1..][0].0 != "to" by { assert pairs[1..][0].0[0] == 'f'; }
    assert Get(pairs, "to") == Get(pairs[1..], "to") == Get(pairs[1..][1..], "to");
    assert pairs[1..][1..][0] == ("to", to);
  }

  lemma {:induction false} GetAfter(prefix: seq<Pair>, rest: seq<Pair>, name: string)
    requires name !in Names(prefix)
    ensures Get(prefix + rest, name) == Get(rest, name)
  {
    if |prefix| > 0 {
      assert (prefix + rest)[1..] == prefix[1..] + rest;
      assert Names(prefix) == [prefix[0].0] + Names(prefix[1..]);
      GetAfter(prefix[1..], rest, name);
    } else {
      assert prefix + rest == rest;
    }
  }

  /** The query string of the link. */
  function Query(p: Props): string { Serialize(QueryPairs(p)) }

  /** A React child that `||` treats as false: no child, or the empty
      string. */
  predicate IsFalsy(children: Option<Node>) {
    children.None? || children == Some(Str(""))
  }

  /** The link's visible content: the children, or the default caption when
      they are falsy. */
  function Caption(children: Option<Node>): (r: Node)
    ensures !IsFalsy(Some(r))
    ensures !IsFalsy(children) ==> Some(r) == children
    ensures IsFalsy(children) ==> r == Str(DefaultCaption)
  {
    if IsFalsy(children) then Str(DefaultCaption) else children.value
  }

  /** The rendered anchor. */
  function Render(p: Props): (r: Anchor)
    ensures StartsWith(r.href, ComposeUrl) && r.href[|ComposeUrl|..] == Query(p)
    ensures StartsWith(r.ariaLabel, AriaPrefix) && r.ariaLabel[|AriaPrefix|..] == p.to
    ensures r.target == "_blank" && r.rel == "noopener noreferrer"
    ensures r.content == Caption(p.children)
  {
    Anchor(ComposeUrl + Query(p), "_blank", "noopener noreferrer", AriaPrefix + p.to, Caption(p.children))
  }

  /** The link shows its children exactly when they are truthy. It shows the
      default caption in place of falsy children only: a child that itself
      reads "Contact Us" is shown as given. */
  lemma ContentIsChildrenIffTruthy(p: Props)
    ensures Some(Render(p).content) == p.children <==> !IsFalsy(p.children)
    ensures IsFalsy(p.children) <==> Render(p).content == Str(DefaultCaption) && p.children != Some(Str(DefaultCaption))
  {
    if IsFalsy(p.children) {
      assert |DefaultCaption| != 0;
    }
  }

  /** The accessible label names the recipient: two links have the same
      label exactly when they go to the same address. */
  lemma AriaLabelIdentifiesRecipient(p: Props, q: Props)
    ensures Render(p).ariaLabel == Render(q).ariaLabel <==> p.to == q.to
  {
    var a, b := Render(p).ariaLabel, Render(q).ariaLabel;
    if a == b {
      assert a[|AriaPrefix|..] == b[|AriaPrefix|..];
    }
  }

  /** Parsing the link's query gives back exactly the pairs the builder
      appended, whatever characters the recipient, subject and body hold. */
  lemma QueryRoundTrip(p: Props)
    ensures Parse(Query(p)) == Some(QueryPairs(p))
  {
    ParseSerialize(QueryPairs(p));
  }

  /** The recipient, the subject and the body read back from the link are
      the ones given; an empty subject or body is absent from the link. */
  lemma LinkCarriesMessage(p: Props)
    ensures Parse(Render(p).href[|ComposeUrl|..]).Some?
    ensures var pairs := Parse(Render(p).href[|ComposeUrl|..]).value;
      Get(pairs, "to") == Some(p.to) &&
      Get(pairs, "su") == (if SubjectOf(p) == "" then None else Some(SubjectOf(p))) &&
      Get(pairs, "body") == (if BodyOf(p) == "" then None else Some(BodyOf(p)))
  {
    QueryRoundTrip(p);
    QueryPairsContent(p);
  }

  /** The query has one `&` between consecutive pairs and no other. */
  lemma QuerySeparators(p: Props)
    ensures multiset(Query(p))['&'] == |QueryPairs(p)| - 1
    ensures Split(Query(p), '&') == PairStrings(QueryPairs(p))
  {
    SerializeSeparators(QueryPairs(p));
  }

  /** Without a subject prop the link carries the default subject. */
  lemma DefaultSubjectSent(to: string, body: Option<string>, children: Option<Node>)
    ensures Get(QueryPairs(Props(to, None, body, children)), "su") == Some(DefaultSubject)
  {
    QueryPairsContent(Props(to, None, body, children));
  }

  /** Calling with no subject and no body gives four pairs. */
  lemma MinimalCallPairs(to: string)
    ensures QueryPairs(Props(to, None, None, None)) ==
      [("view", "cm"), ("fs", "1"), ("to", to), ("su", DefaultSubject)]
  {
  }
}
