/**
 The resume parsing service: the uploaded text is split on whitespace, each
 token's best fuzzy match in the skill corpus is kept when it scores at least
 85, and the distinct kept entries are returned in ascending order.

 The fuzzy scorer is a parameter `best`: for a token it yields the best corpus
 entry with its score, or nothing. Its one contract is that the entry it names
 is an entry of the corpus it was given.
 */
module ResumeNlp {
  import opened Wrappers
  import opened LexOrder

  /**
   The skill vocabulary the service matches against, in its listed order;
   "Editing" is listed twice (positions 52 and 186). It is kept in parts of
   seventeen entries so that positions in it stay cheap to reason about.
   */
  const SkillCorpus: seq<string> :=
    CorpusPart0 + CorpusPart1 + CorpusPart2 + CorpusPart3 + CorpusPart4 + CorpusPart5
    + CorpusPart6 + CorpusPart7 + CorpusPart8 + CorpusPart9 + CorpusPart10 + CorpusPart11

  const CorpusPart0: seq<string> := [
    "Python", "Java", "C++", "SQL", "Machine Learning", "Deep Learning", "Communication",
    "Leadership", "Teamwork", "C#", "JavaScript", "HTML", "CSS", "Django", "Flask", "React",
    "Node.js"
  ]
  const CorpusPart1: seq<string> := [
    "AWS", "Azure", "GCP", "Docker", "Kubernetes", "Git", "Linux", "Agile", "Scrum",
    "Data Analysis", "Data Science", "NLP", "Computer Vision", "TensorFlow", "PyTorch", "Pandas",
    "NumPy"
  ]
  const CorpusPart2: seq<string> := [
    "Matplotlib", "Seaborn", "Tableau", "Power BI", "Excel", "Project Management",
    "Time Management", "Problem Solving", "Critical Thinking", "Creativity", "Adaptability",
    "Emotional Intelligence", "Public Speaking", "Negotiation", "Conflict Resolution", "Networking",
    "Research"
  ]
  const CorpusPart3: seq<string> := [
    "Writing", "Editing", "Marketing", "Sales", "Customer Service", "Business Development",
    "Financial Analysis", "Accounting", "Budgeting", "Strategic Planning", "Operations Management",
    "Human Resources", "Recruitment", "Training", "Coaching", "Mentoring", "Event Planning"
  ]
  const CorpusPart4: seq<string> := [
    "Social Media", "SEO", "Content Creation", "Graphic Design", "Video Editing", "Photography",
    "UX/UI Design", "Mobile Development", "iOS", "Android", "Swift", "Kotlin", "Ruby on Rails",
    "PHP", "Laravel", "WordPress", "Magento"
  ]
  const CorpusPart5: seq<string> := [
    "Salesforce", "SAP", "Oracle", "Business Intelligence", "Data Warehousing", "ETL", "Big Data",
    "Hadoop", "Spark", "NoSQL", "MongoDB", "Cassandra", "Redis", "RabbitMQ", "Kafka",
    "Microservices", "RESTful APIs"
  ]
  const CorpusPart6: seq<string> := [
    "GraphQL", "Web Development", "Software Development", "Quality Assurance", "Testing",
    "Automation", "CI/CD", "Jenkins", "Travis CI", "CircleCI", "Ansible", "Terraform", "Prometheus",
    "Grafana", "Splunk", "Log Management", "Cybersecurity"
  ]
  const CorpusPart7: seq<string> := [
    "Penetration Testing", "Ethical Hacking", "Network Security", "Information Security",
    "Compliance", "Risk Management", "Disaster Recovery", "Business Continuity", "ITIL",
    "Six Sigma", "Lean", "Kaizen", "Change Management", "Supply Chain Management", "Logistics",
    "Procurement", "Inventory Management"
  ]
  const CorpusPart8: seq<string> := [
    "Quality Control", "Manufacturing", "Engineering", "Mechanical Engineering",
    "Electrical Engineering", "Civil Engineering", "Chemical Engineering", "Biomedical Engineering",
    "Environmental Science", "Geology", "Meteorology", "Astronomy", "Physics", "Chemistry",
    "Biology", "Mathematics", "Statistics"
  ]
  const CorpusPart9: seq<string> := [
    "Economics", "Political Science", "Sociology", "Psychology", "Philosophy", "History",
    "Anthropology", "Linguistics", "Foreign Languages", "Translation", "Interpretation", "Teaching",
    "Tutoring", "Curriculum Development", "E-learning", "Instructional Design", "Library Science"
  ]
  const CorpusPart10: seq<string> := [
    "Archiving", "Museum Studies", "Urban Planning", "Real Estate", "Architecture",
    "Interior Design", "Fashion Design", "Culinary Arts", "Hospitality Management", "Tourism",
    "Event Management", "Public Relations", "Advertising", "Media Planning", "Broadcasting",
    "Journalism", "Editing"
  ]
  const CorpusPart11: seq<string> := [
    "Publishing", "Legal Research", "Contract Law", "Intellectual Property", "Corporate Law",
    "Criminal Law", "Family Law", "Environmental Law", "International Law", "Tax Law", "Labor Law",
    "Civil Rights", "Human Rights", "Nonprofit Management", "Fundraising", "Grant Writing",
    "Volunteer Management"
  ]

  /** The lowest fuzzy score at which a token's best match is kept. */
  const Threshold: real := 85.0

  /** Characters Python's `str.isspace()` accepts, the separators of `str.split()`. */
  predicate IsSpace(c: char) {
    || c == ' '
    || ('\t' <= c <= '\r')
    || ('\U{1C}' <= c <= '\U{1F}')
    || c == '\U{85}'
    || c == '\U{A0}'
    || c == '\U{1680}'
    || ('\U{2000}' <= c <= '\U{200A}')
    || c == '\U{2028}'
    || c == '\U{2029}'
    || c == '\U{202F}'
    || c == '\U{205F}'
    || c == '\U{3000}'
  }

  /** A token of `str.split()`: non-empty and free of whitespace. */
  predicate IsToken(t: string) {
    |t| > 0 && forall i :: 0 <= i < |t| ==> !IsSpace(t[i])
  }

  /** The length of the whitespace run that starts `s`. */
  function LeadingSpace(s: string): (k: nat)
    ensures k <= |s|
    ensures forall i :: 0 <= i < k ==> IsSpace(s[i])
    ensures k < |s| ==> !IsSpace(s[k])
  {
    if s == [] || !IsSpace(s[0]) then 0 else 1 + LeadingSpace(s[1..])
  }

  /** The length of the non-whitespace run that starts `s`. */
  function WordLength(s: string): (k: nat)
    ensures k <= |s|
    ensures forall i :: 0 <= i < k ==> !IsSpace(s[i])
    ensures k < |s| ==> IsSpace(s[k])
  {
    if s == [] || IsSpace(s[0]) then 0 else 1 + WordLength(s[1..])
  }

  /** Python's `text.split()`: the maximal whitespace-free runs of `text`, in order. */
  function Split(text: string): (tokens: seq<string>)
    ensures forall k :: 0 <= k < |tokens| ==> IsToken(tokens[k])
    decreases |text|
  {
    var a := LeadingSpace(text);
    if a == |text| then []
    else
      var rest := text[a..];
      var w := WordLength(rest);
      [rest[..w]] + Split(rest[w..])
  }

  /** The characters of `s` that are not whitespace, in order. */
  function RemoveSpace(s: string): (r: string)
    ensures |r| <= |s|
  {
    if s == [] then []
    else (if IsSpace(s[0]) then [] else [s[0]]) + RemoveSpace(s[1..])
  }

  /** The tokens glued together with nothing between them. */
  function Concat(tokens: seq<string>): string {
    if tokens == [] then [] else tokens[0] + Concat(tokens[1..])
  }

  /** The tokens joined with single spaces, as `" ".join(tokens)`. */
  function Join(tokens: seq<string>): string {
    if tokens == [] then []
    else if |tokens| == 1 then tokens[0]
    else tokens[0] + " " + Join(tokens[1..])
  }

  lemma {:induction false} RemoveSpaceAppend(a: string, b: string)
    ensures RemoveSpace(a + b) == RemoveSpace(a) + RemoveSpace(b)
    decreases |a|
  {
    if a == [] {
      assert a + b == b;
    } else {
      assert (a + b)[0] == a[0];
      assert (a + b)[1..] == a[1..] + b;
      RemoveSpaceAppend(a[1..], b);
    }
  }

  lemma {:induction false} RemoveSpaceOfSpace(s: string)
    requires forall i :: 0 <= i < |s| ==> IsSpace(s[i])
    ensures RemoveSpace(s) == []
    decreases |s|
  {
    if s != [] { RemoveSpaceOfSpace(s[1..]); }
  }

  lemma {:induction false} RemoveSpaceOfWord(s: string)
    requires forall i :: 0 <= i < |s| ==> !IsSpace(s[i])
    ensures RemoveSpace(s) == s
    decreases |s|
  {
    if s != [] {
      RemoveSpaceOfWord(s[1..]);
      assert s == [s[0]] + s[1..];
    }
  }

  /** Gluing the tokens back together gives the text with every whitespace character removed. */
  lemma {:induction false} SplitConcat(text: string)
    ensures Concat(Split(text)) == RemoveSpace(text)
    decreases |text|
  {
    var a := LeadingSpace(text);
    assert text == text[..a] + text[a..];
    RemoveSpaceAppend(text[..a], text[a..]);
    RemoveSpaceOfSpace(text[..a]);
    assert RemoveSpace(text) == RemoveSpace(text[a..]);
    if a < |text| {
      var rest := text[a..];
      var w := WordLength(rest);
      assert rest == rest[..w] + rest[w..];
      RemoveSpaceAppend(rest[..w], rest[w..]);
      RemoveSpaceOfWord(rest[..w]);
      SplitConcat(rest[w..]);
      assert RemoveSpace(rest) == rest[..w] + Concat(Split(rest[w..]));
      var tokens := Split(text);
      assert tokens == [rest[..w]] + Split(rest[w..]);
      assert tokens[0] == rest[..w] && tokens[1..] == Split(rest[w..]);
      assert Concat(tokens) == tokens[0] + Concat(tokens[1..]);
    } else {
      assert text[a..] == [];
    }
  }

  /** Splitting yields no tokens exactly when the text is empty or all whitespace. */
  lemma SplitBlank(text: string)
    ensures Split(text) == [] <==> forall i :: 0 <= i < |text| ==> IsSpace(text[i])
  {
  }

  lemma {:induction false} SplitSkipSpace(c: char, text: string)
    requires IsSpace(c)
    ensures Split([c] + text) == Split(text)
  {
    var s := [c] + text;
    assert s[1..] == text;
    assert LeadingSpace(s) == 1 + LeadingSpace(text);
    assert s[LeadingSpace(s)..] == text[LeadingSpace(text)..];
  }

  lemma {:induction false} WordLengthOfToken(t: string, rest: string)
    requires forall i :: 0 <= i < |t| ==> !IsSpace(t[i])
    requires rest == [] || IsSpace(rest[0])
    ensures WordLength(t + rest) == |t|
    decreases |t|
  {
    if t == [] {
    } else {
      assert (t + rest)[1..] == t[1..] + rest;
      WordLengthOfToken(t[1..], rest);
    }
  }

  /** A token followed by whitespace or nothing is split off as the first token. */
  lemma SplitToken(t: string, tail: string)
    requires IsToken(t)
    requires tail == [] || IsSpace(tail[0])
    ensures Split(t + tail) == [t] + Split(tail)
  {
    var s := t + tail;
    assert s[0] == t[0];
    assert LeadingSpace(s) == 0;
    assert s[0..] == s;
    WordLengthOfToken(t, tail);
    assert s[..|t|] == t && s[|t|..] == tail;
  }

  /** Joining one more token in front adds it in front of the split. */
  lemma SplitJoinStep(t: string, more: seq<string>)
    requires IsToken(t) && more != []
    ensures Split(Join([t] + more)) == [t] + Split(Join(more))
  {
    var tail := [' '] + Join(more);
    assert ([t] + more)[1..] == more;
    assert Join([t] + more) == t + tail;
    SplitToken(t, tail);
    SplitSkipSpace(' ', Join(more));
  }

  /** Splitting undoes joining with single spaces, for a list of proper tokens. */
  lemma {:induction false} SplitJoin(tokens: seq<string>)
    requires forall k :: 0 <= k < |tokens| ==> IsToken(tokens[k])
    ensures Split(Join(tokens)) == tokens
  {
    if |tokens| == 1 {
      SplitToken(tokens[0], []);
      assert Join(tokens) == tokens[0] + [];
    } else if tokens != [] {
      var more := tokens[1..];
      assert forall k :: 0 <= k < |more| ==> more[k] == tokens[k + 1];
      SplitJoin(more);
      assert tokens == [tokens[0]] + more;
      SplitJoinStep(tokens[0], more);
    }
  }

  /** One result of the fuzzy scorer: the best-matching corpus entry and its score. */
  datatype Match = Match(entry: string, score: real)

  /** The scorer only ever names entries of `corpus`, as `extractOne(token, corpus)` does. */
  ghost predicate BestFrom(best: string -> Option<Match>, corpus: seq<string>) {
    forall t :: best(t).Some? ==> best(t).value.entry in corpus
  }

  /** Token `t`'s best match exists, is the entry `e`, and scores at least 85. */
  predicate KeptAs(best: string -> Option<Match>, t: string, e: string) {
    best(t).Some? && best(t).value.score >= Threshold && best(t).value.entry == e
  }

  /** Some token of `tokens` is kept as the entry `e`. */
  ghost predicate Extracted(best: string -> Option<Match>, tokens: seq<string>, e: string) {
    exists k :: 0 <= k < |tokens| && KeptAs(best, tokens[k], e)
  }

  /** One more token extracts what the earlier ones did plus what it keeps itself. */
  lemma ExtractedSnoc(best: string -> Option<Match>, init: seq<string>, t: string)
    ensures forall e :: Extracted(best, init + [t], e) <==> Extracted(best, init, e) || KeptAs(best, t, e)
  {
    var tokens := init + [t];
    forall e ensures Extracted(best, tokens, e) <==> Extracted(best, init, e) || KeptAs(best, t, e) {
      if Extracted(best, tokens, e) {
        var k :| 0 <= k < |tokens| && KeptAs(best, tokens[k], e);
        if k < |init| { assert init[k] == tokens[k]; }
      }
      if Extracted(best, init, e) {
        var k :| 0 <= k < |init| && KeptAs(best, init[k], e);
        assert tokens[k] == init[k];
      }
      if KeptAs(best, t, e) {
        assert tokens[|init|] == t;
      }
    }
  }

  /**
   Reference definition of the reply: the entries kept for some token, each
   once, in ascending order, built by sorted insertion.
   */
  function KeptSkills(tokens: seq<string>, best: string -> Option<Match>): (skills: seq<string>)
    ensures StrictlySorted(skills)
    ensures forall e :: e in skills <==> Extracted(best, tokens, e)
  {
    if tokens == [] then []
    else
      var init := tokens[..|tokens| - 1];
      var t := tokens[|tokens| - 1];
      var rest := KeptSkills(init, best);
      assert tokens == init + [t];
      ExtractedSnoc(best, init, t);
      if best(t).Some? && best(t).value.score >= Threshold then InsertUnique(best(t).value.entry, rest) else rest
  }

  /**
   The token loop of `parse_resume`: every token whose best match scores at
   least 85 adds that entry to a set, and the set is returned sorted.
   */
  method ParseSkills(tokens: seq<string>, corpus: seq<string>, best: string -> Option<Match>) returns (skills: seq<string>)
    requires BestFrom(best, corpus)
    ensures StrictlySorted(skills)
    ensures forall e :: e in skills <==> Extracted(best, tokens, e)
    ensures forall e :: e in skills ==> e in corpus
    ensures skills == KeptSkills(tokens, best)
  {
    var extracted: set<string> := {};
    var i := 0;
    while i < |tokens|
      invariant 0 <= i <= |tokens|
      invariant forall e :: e in extracted <==> Extracted(best, tokens[..i], e)
    {
      var m := best(tokens[i]);
      if m.Some? && m.value.score >= Threshold {
        extracted := extracted + {m.value.entry};
      }
      assert tokens[..i + 1] == tokens[..i] + [tokens[i]];
      ExtractedSnoc(best, tokens[..i], tokens[i]);
      i := i + 1;
    }
    assert tokens[..i] == tokens;
    skills := SortedFromSet(extracted);
    forall e | e in skills ensures e in corpus {
      var k :| 0 <= k < |tokens| && KeptAs(best, tokens[k], e);
    }
    StrictlySortedUnique(skills, KeptSkills(tokens, best));
  }

  /**
   `parse_resume` on already-decoded text, on its `text.split()` path: the
   corpus entries some whitespace token matches with a score of at least 85,
   each once and in ascending order.
   */
  method ParseResume(text: string, best: string -> Option<Match>) returns (skills: seq<string>)
    requires BestFrom(best, SkillCorpus)
    ensures StrictlySorted(skills)
    ensures forall e :: e in skills <==> Extracted(best, Split(text), e)
    ensures forall e :: e in skills ==> e in SkillCorpus
    ensures (forall i :: 0 <= i < |text| ==> IsSpace(text[i])) ==> skills == []
  {
    var tokens := Split(text);
    SplitBlank(text);
    skills := ParseSkills(tokens, SkillCorpus, best);
  }

  /**
   The reply depends only on which tokens occur, not on their order or how
   often they repeat.
   */
  lemma KeptSkillsTokenSetOnly(t1: seq<string>, t2: seq<string>, best: string -> Option<Match>)
    requires forall t :: t in t1 <==> t in t2
    ensures KeptSkills(t1, best) == KeptSkills(t2, best)
  {
    forall e ensures Extracted(best, t1, e) <==> Extracted(best, t2, e) {
      if Extracted(best, t1, e) {
        var k :| 0 <= k < |t1| && KeptAs(best, t1[k], e);
        assert t1[k] in t2;
        var k' :| 0 <= k' < |t2| && t2[k'] == t1[k];
      }
      if Extracted(best, t2, e) {
        var k :| 0 <= k < |t2| && KeptAs(best, t2[k], e);
        assert t2[k] in t1;
        var k' :| 0 <= k' < |t1| && t1[k'] == t2[k];
      }
    }
    StrictlySortedUnique(KeptSkills(t1, best), KeptSkills(t2, best));
  }

  /** The corpus lists "Editing" at two positions, yet a reply names it at most once. */
  lemma CorpusListsEditingTwice(tokens: seq<string>, best: string -> Option<Match>)
    ensures SkillCorpus[52] == "Editing" && SkillCorpus[186] == "Editing"
    ensures forall i, j :: 0 <= i < j < |KeptSkills(tokens, best)| ==> KeptSkills(tokens, best)[i] != KeptSkills(tokens, best)[j]
  {
    var r := KeptSkills(tokens, best);
    forall i, j | 0 <= i < j < |r| ensures r[i] != r[j] {
      LessIrreflexive(r[i]);
    }
  }
}
