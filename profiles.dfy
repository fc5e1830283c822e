/** The profile generator: validates a name and an age, cleans a list of hobbies and
    a set of social-network handles, and formats a five-line profile. The same logic
    exists in two copies of the exercise, which this module models once. */
module Profiles {
  import opened Wrappers
  import opened Seqs
  import opened Text
  import opened PyValues

  /** Why `crear_perfil` raises; every case is a ValueError. */
  datatype ProfileError = EmptyName | BadNameChars | BadNameLength | AgeOutOfRange

  // ---------------------------------------------------------------------------
  // Character classes of the three patterns
  // ---------------------------------------------------------------------------

  /** `[A-Za-zÁÉÍÓÚÜÑáéíóúüñ' -]` */
  predicate IsNameChar(c: char)
  {
    IsUpperLetter(c) || IsLowerLetter(c) || c == '\'' || c == ' ' || c == '-'
  }

  /** `[A-Za-zÁÉÍÓÚÜÑáéíóúüñ0-9' _-]` */
  predicate IsHobbyChar(c: char)
  {
    IsUpperLetter(c) || IsLowerLetter(c) || ('0' <= c <= '9') || c == '\'' || c == ' ' || c == '_' || c == '-'
  }

  /** `[a-z0-9_-]` */
  predicate IsKeyChar(c: char)
  {
    ('a' <= c <= 'z') || ('0' <= c <= '9') || c == '_' || c == '-'
  }

  /** A full match of `^[a-z][a-z0-9_-]{1,29}$`. */
  predicate IsNetworkKey(k: string)
  {
    2 <= |k| <= 30 && 'a' <= k[0] <= 'z' && forall i :: 1 <= i < |k| ==> IsKeyChar(k[i])
  }

  // ---------------------------------------------------------------------------
  // Name and age
  // ---------------------------------------------------------------------------

  /** `_validar_nombre`: collapse whitespace, then reject an empty result, a character
      outside the name class, and a length outside 2..60, in that order. */
  function ValidateName(name: string): (r: Result<string, ProfileError>)
    ensures r.Ok? <==> var t := Collapse(name);
              t != [] && (forall k :: 0 <= k < |t| ==> IsNameChar(t[k])) && 2 <= |t| <= 60
    ensures r.Ok? ==> Canonical(r.value) && '\n' !in r.value && 2 <= |r.value| <= 60
    ensures r.Ok? ==> r.value == Collapse(name)
    ensures r == Err(EmptyName) <==> AllSpace(name)
  {
    var t := Collapse(name);
    CanonicalHasNoLineBreak(t);
    if t == [] then Err(EmptyName)
    else if !(forall k :: 0 <= k < |t| ==> IsNameChar(t[k])) then Err(BadNameChars)
    else if !(2 <= |t| <= 60) then Err(BadNameLength)
    else Ok(t)
  }

  /** A validated name validates to itself. */
  lemma ValidateNameIdempotent(name: string)
    requires ValidateName(name).Ok?
    ensures ValidateName(ValidateName(name).value) == ValidateName(name)
  {
    CollapseCanonical(Collapse(name));
  }

  /** `_validar_edad`: 0 and 120 are the inclusive bounds. */
  function ValidateAge(age: int): (r: Result<nat, ProfileError>)
    ensures r.Ok? <==> 0 <= age <= 120
    ensures r.Ok? ==> r.value == age
    ensures r.Err? ==> r.error == AgeOutOfRange
  {
    if 0 <= age <= 120 then Ok(age) else Err(AgeOutOfRange)
  }

  // ---------------------------------------------------------------------------
  // Hobbies
  // ---------------------------------------------------------------------------

  /** What one hobby argument becomes: nothing (blank), a kept item, or a discarded text. */
  datatype HobbyVerdict = Skip | Keep(item: string) | Discard(text: string)

  /** A hobby as `_limpiar_hobbies` accepts it. */
  predicate IsHobby(x: string)
  {
    x != [] && |x| <= 30 && !IsSpace(x[0]) && !IsSpace(x[|x| - 1]) && HobbyChars(x)
  }

  /** Every character is in the hobby class. */
  predicate HobbyChars(x: string)
  {
    forall k :: 0 <= k < |x| ==> IsHobbyChar(x[k])
  }

  /** The decision `_limpiar_hobbies` takes for one element, before duplicates. */
  function Classify(h: Value, conv: Conversions): (v: HobbyVerdict)
    ensures v.Keep? ==> h.StrV? && IsHobby(v.item) && v.item == Strip(h.s)
    ensures v.Skip? <==> h.StrV? && AllSpace(h.s)
    ensures h.StrV? && IsHobby(Strip(h.s)) ==> v == Keep(Strip(h.s))
    ensures h.StrV? && !AllSpace(h.s) && !IsHobby(Strip(h.s)) ==> v == Discard(Strip(h.s))
    ensures !h.StrV? ==> v == Discard(ToStr(h, conv))
  {
    if !h.StrV? then Discard(ToStr(h, conv))
    else
      var item := Strip(h.s);
      if item == [] then Skip
      else if |item| > 30 || !HobbyChars(item) then Discard(item)
      else Keep(item)
  }

  /** The accepted items, in order, duplicates included. */
  function Kept(hs: seq<Value>, conv: Conversions): seq<string>
    decreases |hs|
  {
    if hs == [] then []
    else
      var prev := Kept(hs[..|hs| - 1], conv);
      match Classify(hs[|hs| - 1], conv)
      case Keep(item) => prev + [item]
      case _ => prev
  }

  /** The discarded texts, in order: `str(h)` for a non-string, the stripped item for
      one that is too long or has a character outside the hobby class. */
  function Discarded(hs: seq<Value>, conv: Conversions): seq<string>
    decreases |hs|
  {
    if hs == [] then []
    else
      var prev := Discarded(hs[..|hs| - 1], conv);
      match Classify(hs[|hs| - 1], conv)
      case Discard(t) => prev + [t]
      case _ => prev
  }

  /** Each element lands in exactly one place: kept, discarded, or neither when blank. */
  lemma {:induction false} HobbyPartition(hs: seq<Value>, conv: Conversions)
    ensures |Kept(hs, conv)| + |Discarded(hs, conv)| + Count(hs, (h: Value) => h.StrV? && AllSpace(h.s)) == |hs|
    decreases |hs|
  {
    if hs != [] {
      var init := hs[..|hs| - 1];
      HobbyPartition(init, conv);
      TakeSnoc(hs, |hs| - 1);
      assert hs == init + [hs[|hs| - 1]];
      CountAppend(init, [hs[|hs| - 1]], (h: Value) => h.StrV? && AllSpace(h.s));
    }
  }

  /** `vistos`: the lower-cased forms of `xs`. */
  function LowerForms(xs: seq<string>): (r: seq<string>)
    ensures |r| == |xs| && forall k :: 0 <= k < |xs| ==> r[k] == Lower(xs[k])
  {
    Map(xs, Lower)
  }

  /** Every accepted item is a hobby. */
  lemma {:induction false} KeptAreHobbies(hs: seq<Value>, conv: Conversions)
    ensures forall k :: 0 <= k < |Kept(hs, conv)| ==> IsHobby(Kept(hs, conv)[k])
    decreases |hs|
  {
    if hs != [] {
      KeptAreHobbies(hs[..|hs| - 1], conv);
    }
  }

  /** The first of every group of items equal ignoring case, in order. */
  function DedupLower(xs: seq<string>): seq<string>
    decreases |xs|
  {
    if xs == [] then []
    else
      var prev := DedupLower(xs[..|xs| - 1]);
      if Lower(xs[|xs| - 1]) in LowerForms(prev) then prev else prev + [xs[|xs| - 1]]
  }

  /** The representatives are taken from the items in order, and no two are equal
      ignoring case. */
  lemma {:induction false} DedupLowerShape(xs: seq<string>)
    ensures IsSubseq(DedupLower(xs), xs)
    ensures forall i, j :: 0 <= i < j < |DedupLower(xs)| ==> Lower(DedupLower(xs)[i]) != Lower(DedupLower(xs)[j])
    decreases |xs|
  {
    if xs != [] {
      var init := xs[..|xs| - 1];
      var x := xs[|xs| - 1];
      var prev := DedupLower(init);
      DedupLowerShape(init);
      assert xs == init + [x];
      SubseqExtend(prev, init, [x]);
      if Lower(x) !in LowerForms(prev) {
        forall i | 0 <= i < |prev| ensures Lower(prev[i]) != Lower(x) {
          assert LowerForms(prev)[i] == Lower(prev[i]);
        }
        assert (prev + [x])[|prev|] == x;
      }
    }
  }

  /** Every item has a representative equal to it ignoring case. */
  lemma {:induction false} DedupCovers(xs: seq<string>, i: nat)
    requires i < |xs|
    ensures Lower(xs[i]) in LowerForms(DedupLower(xs))
    decreases |xs|
  {
    var init := xs[..|xs| - 1];
    var prev := DedupLower(init);
    if i < |xs| - 1 {
      DedupCovers(init, i);
      assert init[i] == xs[i];
      var k :| 0 <= k < |prev| && LowerForms(prev)[k] == Lower(xs[i]);
      var r := DedupLower(xs);
      assert r == prev || r == prev + [xs[|xs| - 1]];
      assert r[k] == prev[k];
      assert LowerForms(r)[k] == Lower(xs[i]);
    } else {
      var r := DedupLower(xs);
      if Lower(xs[i]) !in LowerForms(prev) {
        assert r[|r| - 1] == xs[i];
        assert LowerForms(r)[|r| - 1] == Lower(xs[i]);
      }
    }
  }

  /** The representative kept for an item is the first item of its group. */
  lemma {:induction false} DedupKeepsFirst(xs: seq<string>, k: nat, i: nat)
    requires k < |DedupLower(xs)| && i < |xs| && Lower(xs[i]) == Lower(DedupLower(xs)[k])
    ensures exists j :: 0 <= j <= i && xs[j] == DedupLower(xs)[k]
    decreases |xs|
  {
    var init := xs[..|xs| - 1];
    var x := xs[|xs| - 1];
    var prev := DedupLower(init);
    var r := DedupLower(xs);
    if k < |prev| {
      assert r[k] == prev[k];
      if i < |xs| - 1 {
        assert init[i] == xs[i];
        DedupKeepsFirst(init, k, i);
        var j :| 0 <= j <= i && init[j] == prev[k];
        assert xs[j] == r[k];
      } else {
        assert Lower(x) == Lower(prev[k]);
        assert LowerForms(prev)[k] == Lower(x);
        assert r == prev;
        DedupLowerShape(init);
        SubseqMember(prev, init, prev[k]);
        var j :| 0 <= j < |init| && init[j] == prev[k];
        assert xs[j] == r[k];
      }
    } else {
      assert r[k] == x;
      DedupFirstNew(xs, i);
    }
  }

  /** The last item is kept only when no earlier item is equal to it ignoring case. */
  lemma DedupFirstNew(xs: seq<string>, i: nat)
    requires i < |xs| && |DedupLower(xs)| > |DedupLower(xs[..|xs| - 1])|
    requires Lower(xs[i]) == Lower(xs[|xs| - 1])
    ensures exists j :: 0 <= j <= i && xs[j] == xs[|xs| - 1]
  {
    if i < |xs| - 1 {
      DedupCovers(xs[..|xs| - 1], i);
    } else {
      assert xs[i] == xs[|xs| - 1];
    }
  }

  /** `_limpiar_hobbies` as a value: (validos, descartados). */
  function CleanHobbiesSpec(hs: seq<Value>, conv: Conversions): (seq<string>, seq<string>)
  {
    (DedupLower(Kept(hs, conv)), Discarded(hs, conv))
  }

  /** `_limpiar_hobbies`: one pass with the set `vistos` of lower-cased kept items. */
  method CleanHobbies(hs: seq<Value>, conv: Conversions) returns (valid: seq<string>, discarded: seq<string>)
    ensures (valid, discarded) == CleanHobbiesSpec(hs, conv)
  {
    valid, discarded := [], [];
    var seen: set<string> := {};
    var i := 0;
    while i < |hs|
      invariant 0 <= i <= |hs|
      invariant valid == DedupLower(Kept(hs[..i], conv))
      invariant discarded == Discarded(hs[..i], conv)
      invariant forall key :: key in seen <==> key in LowerForms(valid)
    {
      HobbyLoopStep(hs, i, conv, valid, discarded);
      var h := hs[i];
      ghost var verdict := Classify(h, conv);
      if !h.StrV? {
        discarded := discarded + [ToStr(h, conv)];
      } else {
        var item := Strip(h.s);
        if item == [] {
          assert verdict == Skip;
        } else if |item| > 30 || !HobbyChars(item) {
          assert verdict == Discard(item);
          discarded := discarded + [item];
        } else {
          assert verdict == Keep(item);
          var key := Lower(item);
          assert key in seen <==> key in LowerForms(valid);
          if key !in seen {
            seen := seen + {key};
            valid := valid + [item];
          }
        }
      }
      assert valid == DedupLower(Kept(hs[..i + 1], conv));
      i := i + 1;
    }
    assert hs[..i] == hs;
  }

  /** One more element extends the accepted or the discarded list by its verdict. */
  lemma HobbyStep(hs: seq<Value>, i: nat, conv: Conversions)
    requires i < |hs|
    ensures var v := Classify(hs[i], conv);
            Kept(hs[..i + 1], conv) == Kept(hs[..i], conv) + (if v.Keep? then [v.item] else []) &&
            Discarded(hs[..i + 1], conv) == Discarded(hs[..i], conv) + (if v.Discard? then [v.text] else [])
  {
    assert hs[..i + 1][..i] == hs[..i];
  }

  /** The representatives after one more verdict: a kept item is added unless an equal
      one ignoring case is already there; any other verdict leaves them alone. */
  /** The loop's lists after one more element: the verdict's item is added to the
      representatives unless an equal one ignoring case is there, and its discarded
      text to the discarded list. */
  lemma HobbyLoopStep(hs: seq<Value>, i: nat, conv: Conversions, valid: seq<string>, discarded: seq<string>)
    requires i < |hs|
    requires valid == DedupLower(Kept(hs[..i], conv)) && discarded == Discarded(hs[..i], conv)
    ensures var v := Classify(hs[i], conv);
            DedupLower(Kept(hs[..i + 1], conv)) ==
              (if v.Keep? && Lower(v.item) !in LowerForms(valid) then valid + [v.item] else valid) &&
            Discarded(hs[..i + 1], conv) == discarded + (if v.Discard? then [v.text] else []) &&
            (v.Keep? ==> LowerForms(valid + [v.item]) == LowerForms(valid) + [Lower(v.item)])
  {
    HobbyStep(hs, i, conv);
    DedupVerdictStep(Kept(hs[..i], conv), Classify(hs[i], conv), valid);
  }

  lemma DedupVerdictStep(kept: seq<string>, v: HobbyVerdict, valid: seq<string>)
    requires valid == DedupLower(kept)
    ensures DedupLower(kept + (if v.Keep? then [v.item] else [])) ==
            if v.Keep? && Lower(v.item) !in LowerForms(valid) then valid + [v.item] else valid
    ensures v.Keep? ==> LowerForms(valid + [v.item]) == LowerForms(valid) + [Lower(v.item)]
  {
    if v.Keep? {
      DedupStep(kept, v.item);
    } else {
      assert kept + [] == kept;
    }
  }

  lemma DedupStep(xs: seq<string>, x: string)
    ensures DedupLower(xs + [x]) ==
            if Lower(x) in LowerForms(DedupLower(xs)) then DedupLower(xs) else DedupLower(xs) + [x]
  {
    assert (xs + [x])[..|xs|] == xs;
  }

  /** The hobbies kept are accepted hobbies, distinct ignoring case. */
  lemma CleanHobbiesValid(hs: seq<Value>, conv: Conversions)
    ensures var valid := CleanHobbiesSpec(hs, conv).0;
            (forall k :: 0 <= k < |valid| ==> IsHobby(valid[k])) &&
            (forall i, j :: 0 <= i < j < |valid| ==> Lower(valid[i]) != Lower(valid[j]))
  {
    KeptAreHobbies(hs, conv);
    DedupLowerShape(Kept(hs, conv));
    SubseqMemberAll(CleanHobbiesSpec(hs, conv).0, Kept(hs, conv));
  }

  // ---------------------------------------------------------------------------
  // Social networks
  // ---------------------------------------------------------------------------

  /** `k0.lower().replace(" ", "")` */
  function NormalizeKey(k: string): (r: string)
    ensures ' ' !in r
    ensures forall i :: 0 <= i < |r| ==> !IsUpperLetter(r[i])
    ensures r == Lower(Filter(k, NotBlankChar))
  {
    var lowered := Lower(k);
    assert forall i :: 0 <= i < |lowered| ==> !IsUpperLetter(lowered[i]);
    var r := Filter(lowered, NotBlankChar);
    forall i | 0 <= i < |r| ensures !IsUpperLetter(r[i]) && r[i] != ' ' {
      SubseqMember(r, lowered, r[i]);
    }
    FilterMapCommute(k, NotBlankChar, LowerChar);
    r
  }

  predicate NotBlankChar(c: char)
  {
    c != ' '
  }

  /** twitter, instagram and tiktok handles carry a leading '@'. */
  predicate NeedsAt(key: string)
  {
    key == "twitter" || key == "instagram" || key == "tiktok"
  }

  /** `v0 if v0.startswith("@") else f"@{v0}"` */
  function WithAt(v: string): (r: string)
    ensures r != [] && r[0] == '@'
    ensures v != [] && v[0] == '@' ==> r == v
    ensures |r| <= |v| + 1
  {
    if v != [] && v[0] == '@' then v else "@" + v
  }

  /** Adding the '@' twice is adding it once: an existing '@' is never doubled. */
  lemma WithAtIdempotent(v: string)
    ensures WithAt(WithAt(v)) == WithAt(v)
  {
  }

  /** The handle as stored under `key`: with a leading '@' for the networks that use one. */
  function SocialValue(key: string, v: string): string
  {
    if NeedsAt(key) then WithAt(v) else v
  }

  /** What `_limpiar_redes` does with one pair. */
  datatype SocialVerdict = Ignore | Reject(key: string, value: string) | Accept(key: string, value: string)

  function ClassifySocial(entry: (string, string)): (v: SocialVerdict)
    ensures v.Accept? ==> IsNetworkKey(v.key) && v.value != [] && |v.value| <= 50
    ensures v.Accept? ==> v.key == NormalizeKey(Strip(entry.0))
    ensures v.Accept? ==> v.value == SocialValue(v.key, Strip(entry.1))
    ensures v.Ignore? <==> AllSpace(entry.0) && AllSpace(entry.1)
    ensures v.Accept? <==> !AllSpace(entry.0) && !AllSpace(entry.1) && IsNetworkKey(NormalizeKey(Strip(entry.0))) &&
                           |SocialValue(NormalizeKey(Strip(entry.0)), Strip(entry.1))| <= 50
    ensures v.Reject? ==> v.key == Strip(entry.0)
  {
    var k0 := Strip(entry.0);
    var v0 := Strip(entry.1);
    if k0 == [] || v0 == [] then
      if k0 != [] || v0 != [] then Reject(k0, v0) else Ignore
    else
      var key := NormalizeKey(k0);
      if !IsNetworkKey(key) then Reject(k0, v0)
      else
        var value := SocialValue(key, v0);
        if |value| > 50 then Reject(k0, value) else Accept(key, value)
  }

  function Accepted(entry: (string, string)): Option<(string, string)>
  {
    match ClassifySocial(entry)
    case Accept(k, v) => Some((k, v))
    case _ => None
  }

  function Rejected(entry: (string, string)): Option<(string, string)>
  {
    match ClassifySocial(entry)
    case Reject(k, v) => Some((k, v))
    case _ => None
  }

  /** `_limpiar_redes` as a value: (validas, descartadas), each a dict in insertion order. */
  function CleanSocialSpec(entries: seq<(string, string)>): (seq<(string, string)>, seq<(string, string)>)
  {
    (Entries(entries, Accepted), Entries(entries, Rejected))
  }

  /** `_limpiar_redes` */
  method CleanSocial(entries: seq<(string, string)>) returns (valid: seq<(string, string)>, rejected: seq<(string, string)>)
    ensures (valid, rejected) == CleanSocialSpec(entries)
  {
    valid, rejected := [], [];
    var i := 0;
    while i < |entries|
      invariant 0 <= i <= |entries|
      invariant valid == Entries(entries[..i], Accepted)
      invariant rejected == Entries(entries[..i], Rejected)
    {
      SocialStep(entries, i, valid, rejected);
      var k0 := Strip(entries[i].0);
      var v0 := Strip(entries[i].1);
      ghost var verdict := ClassifySocial(entries[i]);
      if k0 == [] || v0 == [] {
        if k0 != [] || v0 != [] {
          assert verdict == Reject(k0, v0);
          rejected := Assign(rejected, k0, v0);
        } else {
          assert verdict == Ignore;
        }
      } else {
        var key := NormalizeKey(k0);
        if !IsNetworkKey(key) {
          assert verdict == Reject(k0, v0);
          rejected := Assign(rejected, k0, v0);
        } else {
          if NeedsAt(key) && !(v0 != [] && v0[0] == '@') {
            v0 := "@" + v0;
          }
          assert v0 == if NeedsAt(key) then WithAt(Strip(entries[i].1)) else Strip(entries[i].1);
          if |v0| > 50 {
            assert verdict == Reject(k0, v0);
            rejected := Assign(rejected, k0, v0);
          } else {
            assert verdict == Accept(key, v0);
            valid := Assign(valid, key, v0);
          }
        }
      }
      assert valid == Entries(entries[..i + 1], Accepted);
      assert rejected == Entries(entries[..i + 1], Rejected);
      i := i + 1;
    }
    assert entries[..i] == entries;
  }

  /** One pair more: an accepted pair is assigned in the valid dict, a rejected one in
      the discarded dict, and a blank one in neither. */
  lemma SocialStep(entries: seq<(string, string)>, i: nat, valid: seq<(string, string)>, rejected: seq<(string, string)>)
    requires i < |entries|
    requires valid == Entries(entries[..i], Accepted) && rejected == Entries(entries[..i], Rejected)
    ensures var v := ClassifySocial(entries[i]);
            Entries(entries[..i + 1], Accepted) == (if v.Accept? then Assign(valid, v.key, v.value) else valid) &&
            Entries(entries[..i + 1], Rejected) == (if v.Reject? then Assign(rejected, v.key, v.value) else rejected)
  {
    var x := entries[i];
    TakeSnoc(entries, i);
    EntriesSnoc(entries[..i], x, Accepted);
    EntriesSnoc(entries[..i], x, Rejected);
    VerdictOptions(x);
    var v := ClassifySocial(x);
    if v.Accept? {
      assert Accepted(x) == Some((v.key, v.value)) && Rejected(x) == None;
    } else if v.Reject? {
      assert Accepted(x) == None && Rejected(x) == Some((v.key, v.value));
    } else {
      assert Accepted(x) == None && Rejected(x) == None;
    }
  }

  /** The two selectors read the verdict. */
  lemma VerdictOptions(x: (string, string))
    ensures var v := ClassifySocial(x);
            Accepted(x) == (if v.Accept? then Some((v.key, v.value)) else None) &&
            Rejected(x) == (if v.Reject? then Some((v.key, v.value)) else None)
  {
  }

  /** Every stored handle is under a key matching the key pattern, is non-empty, at
      most 50 characters, starts with '@' for twitter, instagram and tiktok, and is the
      value of the last accepted pair for that key; no key is stored twice. */
  lemma CleanSocialValid(entries: seq<(string, string)>, key: string, value: string)
    ensures DistinctKeys(CleanSocialSpec(entries).0)
    ensures (key, value) in CleanSocialSpec(entries).0 ==>
              IsNetworkKey(key) && value != [] && |value| <= 50 && (NeedsAt(key) ==> value[0] == '@') &&
              exists i :: 0 <= i < |entries| && ClassifySocial(entries[i]) == Accept(key, value)
  {
    var d := CleanSocialSpec(entries).0;
    EntriesAsMap(entries, Accepted);
    if (key, value) in d {
      EntryInAsMap(d, key, value);
      CollectSource(entries, Accepted, key);
      var i :| 0 <= i < |entries| && Accepted(entries[i]) == Some((key, value));
      assert ClassifySocial(entries[i]) == Accept(key, value);
    }
  }

  // ---------------------------------------------------------------------------
  // Sorting the handles by key
  // ---------------------------------------------------------------------------

  predicate SortedByKey(d: seq<(string, string)>)
  {
    forall i, j :: 0 <= i < j < |d| ==> !LexLess(d[j].0, d[i].0)
  }

  /** Insert after every entry whose key is not greater, so equal keys keep their order. */
  function InsertByKey(p: (string, string), s: seq<(string, string)>): (r: seq<(string, string)>)
    ensures multiset(r) == multiset(s) + multiset{p}
    ensures forall x :: x in r <==> x == p || x in s
  {
    if s == [] then [p]
    else if LexLess(p.0, s[0].0) then [p] + s
    else
      assert s == [s[0]] + s[1..];
      [s[0]] + InsertByKey(p, s[1..])
  }

  lemma {:induction false} InsertByKeySorted(p: (string, string), s: seq<(string, string)>)
    requires SortedByKey(s)
    ensures SortedByKey(InsertByKey(p, s))
  {
    if s != [] {
      var r := InsertByKey(p, s);
      if LexLess(p.0, s[0].0) {
        forall j | 0 < j < |r| ensures !LexLess(r[j].0, r[0].0) {
          assert r[j] == s[j - 1];
          if LexLess(s[j - 1].0, p.0) {
            LexLessTransitive(s[j - 1].0, p.0, s[0].0);
            LexLessTotal(s[0].0, s[0].0);
          }
        }
      } else {
        InsertByKeySorted(p, s[1..]);
        var t := InsertByKey(p, s[1..]);
        assert r == [s[0]] + t;
        forall j | 0 <= j < |t| ensures !LexLess(t[j].0, s[0].0) {
          assert t[j] in t;
          if t[j] != p {
            var m :| 0 <= m < |s[1..]| && s[1..][m] == t[j];
            assert s[m + 1] == t[j];
          }
        }
      }
    }
  }

  /** Inserting an entry with a new key keeps the keys distinct. */
  lemma {:induction false} InsertByKeyDistinct(p: (string, string), s: seq<(string, string)>)
    requires DistinctKeys(s) && forall x :: x in s ==> x.0 != p.0
    ensures DistinctKeys(InsertByKey(p, s))
  {
    if s != [] && !LexLess(p.0, s[0].0) {
      assert DistinctKeys(s[1..]) by {
        forall i, j | 0 <= i < j < |s[1..]| ensures s[1..][i].0 != s[1..][j].0 {
          assert s[1..][i] == s[i + 1] && s[1..][j] == s[j + 1];
        }
      }
      InsertByKeyDistinct(p, s[1..]);
      var t := InsertByKey(p, s[1..]);
      forall j | 0 <= j < |t| ensures t[j].0 != s[0].0 {
        assert t[j] in t;
        if t[j] != p {
          var m :| 0 <= m < |s[1..]| && s[1..][m] == t[j];
          assert s[m + 1] == t[j];
        }
      }
    }
  }

  /** `sorted(d.items(), key=lambda kv: kv[0].lower())`; the keys here are already
      lower-case, so the key function is the identity on them. */
  function SortByKey(d: seq<(string, string)>): (r: seq<(string, string)>)
    ensures multiset(r) == multiset(d)
    ensures forall x :: x in r <==> x in d
    ensures SortedByKey(r)
    decreases |d|
  {
    if d == [] then []
    else
      var init := d[..|d| - 1];
      var prev := SortByKey(init);
      InsertByKeySorted(d[|d| - 1], prev);
      assert d == init + [d[|d| - 1]];
      InsertByKey(d[|d| - 1], prev)
  }

  /** With distinct keys the sorted keys strictly increase. */
  lemma {:induction false} SortedDistinct(d: seq<(string, string)>)
    requires DistinctKeys(d)
    ensures forall i, j :: 0 <= i < j < |SortByKey(d)| ==> LexLess(SortByKey(d)[i].0, SortByKey(d)[j].0)
    decreases |d|
  {
    SortByKeyDistinct(d);
    var r := SortByKey(d);
    forall i, j | 0 <= i < j < |r| ensures LexLess(r[i].0, r[j].0) {
      LexLessTotal(r[i].0, r[j].0);
    }
  }

  lemma {:induction false} SortByKeyDistinct(d: seq<(string, string)>)
    requires DistinctKeys(d)
    ensures DistinctKeys(SortByKey(d))
    decreases |d|
  {
    if d != [] {
      var init := d[..|d| - 1];
      var p := d[|d| - 1];
      assert DistinctKeys(init);
      SortByKeyDistinct(init);
      forall x | x in SortByKey(init) ensures x.0 != p.0 {
        var m :| 0 <= m < |init| && init[m] == x;
        assert d[m] == x;
      }
      InsertByKeyDistinct(p, SortByKey(init));
    }
  }

  // ---------------------------------------------------------------------------
  // The profile
  // ---------------------------------------------------------------------------

  function PairText(p: (string, string)): string
  {
    p.0 + "=" + p.1
  }

  /** The text after "Hobbies: ". */
  function HobbiesText(hobbies: seq<string>): string
  {
    if hobbies == [] then "Ninguno" else Join(hobbies, ", ")
  }

  /** The text after "Redes sociales: ". */
  function SocialText(social: seq<(string, string)>): string
  {
    if social == [] then "Ninguna" else Join(Map(SortByKey(social), PairText), ", ")
  }

  /** The five lines of a profile. */
  function ProfileLines(name: string, age: nat, hobbies: seq<string>, social: seq<(string, string)>): (r: seq<string>)
    ensures |r| == 5
  {
    ["Perfil de Usuario",
     "Nombre: " + name,
     "Edad: " + DecimalText(age),
     "Hobbies: " + HobbiesText(hobbies),
     "Redes sociales: " + SocialText(social)]
  }

  /** `crear_perfil(nombre, edad, *hobbies, **redes)`: the name is checked before the
      age; discarded hobbies and handles are not shown. */
  function ProfileSpec(name: string, age: int, hobbies: seq<Value>, social: seq<(string, string)>, conv: Conversions): (r: Result<string, ProfileError>)
    ensures r.Err? <==> ValidateName(name).Err? || !(0 <= age <= 120)
    ensures ValidateName(name).Err? ==> r == Err(ValidateName(name).error)
  {
    match ValidateName(name)
    case Err(e) => Err(e)
    case Ok(n) =>
      match ValidateAge(age)
      case Err(e) => Err(e)
      case Ok(a) => Ok(Join(ProfileLines(n, a, CleanHobbiesSpec(hobbies, conv).0, CleanSocialSpec(social).0), "\n"))
  }

  /** `crear_perfil` */
  method CreateProfile(name: string, age: int, hobbies: seq<Value>, social: seq<(string, string)>, conv: Conversions)
    returns (r: Result<string, ProfileError>)
    ensures r == ProfileSpec(name, age, hobbies, social, conv)
  {
    var n := ValidateName(name);
    if n.Err? {
      return Err(n.error);
    }
    var a := ValidateAge(age);
    if a.Err? {
      return Err(a.error);
    }
    var validHobbies, _ := CleanHobbies(hobbies, conv);
    var validSocial, _ := CleanSocial(social);
    return Ok(Join(ProfileLines(n.value, a.value, validHobbies, validSocial), "\n"));
  }

  /** A profile has exactly five lines, in the documented order, as long as no handle
      holds a line break of its own. */
  lemma ProfileHasFiveLines(name: string, age: int, hobbies: seq<Value>, social: seq<(string, string)>, conv: Conversions)
    requires ProfileSpec(name, age, hobbies, social, conv).Ok?
    requires forall i :: 0 <= i < |social| ==> '\n' !in social[i].1
    ensures var n := ValidateName(name).value;
            var lines := ProfileLines(n, age, CleanHobbiesSpec(hobbies, conv).0, CleanSocialSpec(social).0);
            Split(ProfileSpec(name, age, hobbies, social, conv).value, '\n') == lines
  {
    var n := ValidateName(name).value;
    var hs := CleanHobbiesSpec(hobbies, conv).0;
    var ss := CleanSocialSpec(social).0;
    CleanHobbiesValid(hobbies, conv);
    HobbiesHaveNoLineBreak(hs);
    SocialHasNoLineBreak(social);
    LinesHaveNoLineBreak(n, age, hs, ss);
    SplitJoin(ProfileLines(n, age, hs, ss), '\n');
  }

  /** The deduplicated hobbies are accepted hobbies. */
  lemma SubseqMemberAll(hs: seq<string>, kept: seq<string>)
    requires IsSubseq(hs, kept) && forall k :: 0 <= k < |kept| ==> IsHobby(kept[k])
    ensures forall k :: 0 <= k < |hs| ==> IsHobby(hs[k])
  {
    forall k | 0 <= k < |hs| ensures IsHobby(hs[k]) {
      SubseqMember(hs, kept, hs[k]);
    }
  }

  lemma LinesHaveNoLineBreak(n: string, age: nat, hs: seq<string>, ss: seq<(string, string)>)
    requires '\n' !in n && '\n' !in HobbiesText(hs) && '\n' !in SocialText(ss)
    ensures forall k :: 0 <= k < 5 ==> '\n' !in ProfileLines(n, age, hs, ss)[k]
  {
    assert '\n' !in DecimalText(age);
  }

  lemma HobbiesHaveNoLineBreak(hs: seq<string>)
    requires forall k :: 0 <= k < |hs| ==> IsHobby(hs[k])
    ensures '\n' !in HobbiesText(hs)
  {
    if hs != [] && '\n' in Join(hs, ", ") {
      JoinInside(hs, ", ", '\n');
    }
  }

  lemma SocialHasNoLineBreak(social: seq<(string, string)>)
    requires forall i :: 0 <= i < |social| ==> '\n' !in social[i].1
    ensures '\n' !in SocialText(CleanSocialSpec(social).0)
  {
    var d := CleanSocialSpec(social).0;
    if d != [] {
      var pairs := Map(SortByKey(d), PairText);
      forall k | 0 <= k < |pairs| ensures '\n' !in pairs[k] {
        var p := SortByKey(d)[k];
        assert p in d;
        CleanSocialValid(social, p.0, p.1);
        var i :| 0 <= i < |social| && ClassifySocial(social[i]) == Accept(p.0, p.1);
        NoLineBreakInHandle(social[i], p);
      }
      if '\n' in Join(pairs, ", ") {
        JoinInside(pairs, ", ", '\n');
      }
    }
  }

  lemma NoLineBreakInHandle(entry: (string, string), p: (string, string))
    requires '\n' !in entry.1 && ClassifySocial(entry) == Accept(p.0, p.1)
    ensures '\n' !in PairText(p)
  {
    var v0 := Strip(entry.1);
    if '\n' in v0 {
      StripInside(entry.1, '\n');
    }
    assert p.1 == v0 || p.1 == "@" + v0;
    KeyHasNoLineBreak(p.0);
  }

  lemma KeyHasNoLineBreak(k: string)
    requires IsNetworkKey(k)
    ensures '\n' !in k
  {
    if '\n' in k {
      var i :| 0 <= i < |k| && k[i] == '\n';
    }
  }

  /** The social line lists every stored handle once, in strictly increasing key order:
      a pair is listed exactly when the cleaned dict maps its key to its value. */
  lemma SocialLineIsSortedDict(social: seq<(string, string)>, key: string, value: string)
    ensures var sorted := SortByKey(CleanSocialSpec(social).0);
            ((key, value) in sorted <==> key in Collect(social, Accepted) && Collect(social, Accepted)[key] == value) &&
            forall i, j :: 0 <= i < j < |sorted| ==> LexLess(sorted[i].0, sorted[j].0)
  {
    var d := CleanSocialSpec(social).0;
    EntriesAsMap(social, Accepted);
    EntryInAsMap(d, key, value);
    SortedDistinct(d);
    assert (key, value) in SortByKey(d) <==> (key, value) in multiset(d);
  }

  // ---------------------------------------------------------------------------
  // Reading the menu's text input
  // ---------------------------------------------------------------------------

  /** `_parse_hobbies`: the ','-separated pieces, stripped, blanks dropped, in order. */
  function ParseHobbies(text: string): (r: seq<string>)
    ensures forall k :: 0 <= k < |r| ==> IsPiece(r[k], ',')
    ensures AllSpace(text) ==> r == []
  {
    Pieces(text, ',')
  }

  /** The pair one ','-separated piece contributes to `_parse_redes`: split at the first
      '=', both halves stripped and non-empty. */
  function PairOf(piece: string): (r: Option<(string, string)>)
    ensures r.Some? ==> r.value.0 != [] && r.value.1 != [] && '=' !in r.value.0
    ensures r.Some? <==> '=' in piece && !AllSpace(SplitOnce(piece, '=').0) && !AllSpace(SplitOnce(piece, '=').1)
    ensures r.Some? ==> r.value == (Strip(SplitOnce(piece, '=').0), Strip(SplitOnce(piece, '=').1))
  {
    if '=' !in piece then None
    else
      var (k, v) := SplitOnce(piece, '=');
      var key := Strip(k);
      var value := Strip(v);
      assert '=' !in key by {
        if '=' in key { StripInside(k, '='); }
      }
      if key != [] && value != [] then Some((key, value)) else None
  }

  /** `_parse_redes` as a value: a dict in insertion order. */
  function ParseSocialSpec(text: string): seq<(string, string)>
  {
    if AllSpace(text) then [] else Entries(Split(text, ','), PairOf)
  }

  /** `_parse_redes` */
  method ParseSocial(text: string) returns (social: seq<(string, string)>)
    ensures social == ParseSocialSpec(text)
  {
    social := [];
    if Strip(text) == [] {
      return;
    }
    var pieces := Split(text, ',');
    var i := 0;
    while i < |pieces|
      invariant 0 <= i <= |pieces|
      invariant social == Entries(pieces[..i], PairOf)
    {
      var piece := pieces[i];
      TakeSnoc(pieces, i);
      EntriesSnoc(pieces[..i], piece, PairOf);
      if '=' in piece {
        var (k, v) := SplitOnce(piece, '=');
        var key := Strip(k);
        var value := Strip(v);
        if key != [] && value != [] {
          assert PairOf(piece) == Some((key, value));
          social := Assign(social, key, value);
        } else {
          assert PairOf(piece) == None;
        }
      } else {
        assert PairOf(piece) == None;
      }
      i := i + 1;
    }
    assert pieces[..i] == pieces;
  }

  /** Keys and values `_parse_redes` reads back unchanged once written as "k=v" pieces. */
  predicate IsWritablePair(p: (string, string))
  {
    IsPiece(p.0, ',') && '=' !in p.0 && IsPiece(p.1, ',')
  }

  /** Writing distinct-key pairs as "k=v" joined by "," and parsing the text gives the
      pairs back. */
  lemma ParseSocialOfJoin(pairs: seq<(string, string)>)
    requires pairs != [] && DistinctKeys(pairs)
    requires forall i :: 0 <= i < |pairs| ==> IsWritablePair(pairs[i])
    ensures ParseSocialSpec(Join(Map(pairs, PairText), ",")) == pairs
  {
    var texts := Map(pairs, PairText);
    forall i | 0 <= i < |texts| ensures ',' !in texts[i] {
      PairTextHasNoComma(pairs[i]);
    }
    SplitJoin(texts, ',');
    forall i | 0 <= i < |texts| ensures PairOf(texts[i]) == Some(pairs[i]) {
      PairOfPairText(pairs[i]);
    }
    EntriesOfDistinct(texts, PairOf, pairs);
    assert !AllSpace(Join(texts, ",")) by {
      JoinedPartsAreInside(texts, ',', 0);
      assert '=' in texts[0] by { assert texts[0][|pairs[0].0|] == '='; }
      assert '=' in Join(texts, ",");
    }
  }

  lemma PairTextHasNoComma(p: (string, string))
    requires IsWritablePair(p)
    ensures ',' !in PairText(p)
  {
  }

  lemma PairOfPairText(p: (string, string))
    requires IsWritablePair(p)
    ensures PairOf(PairText(p)) == Some(p)
  {
    var t := PairText(p);
    assert t[|p.0|] == '=';
    var (k, v) := SplitOnce(t, '=');
    SplitOnceUnique(t, '=', p.0, p.1);
    StripOfStripped(p.0);
    StripOfStripped(p.1);
  }
}
