/** Month-name resolution of the long-form pattern (public/index.js:99, 103-111):
    the matched word is lower-cased, its first three letters are looked up in a table
    and, failing that, the whole word is. */
module MonthNames {
  import opened Wrappers
  import opened Text

  /** `monthsMap` (public/index.js:103-108): names and abbreviations to month indexes. */
  const MonthsMap: map<string, int> := map[
    "jan" := 0, "january" := 0, "feb" := 1, "february" := 1, "mar" := 2, "march" := 2,
    "apr" := 3, "april" := 3, "may" := 4, "jun" := 5, "june" := 5, "jul" := 6, "july" := 6,
    "aug" := 7, "august" := 7, "sep" := 8, "sept" := 8, "september" := 8,
    "oct" := 9, "october" := 9, "nov" := 10, "november" := 10, "dec" := 11, "december" := 11
  ]

  /** The twelve three-letter abbreviations in calendar order: an independent statement
      of what the table is meant to say. */
  const Abbreviations: seq<string> :=
    ["jan", "feb", "mar", "apr", "may", "jun", "jul", "aug", "sep", "oct", "nov", "dec"]

  /** `monthsMap[key]`, with `undefined` as None. */
  function Lookup(key: string): (r: Option<int>)
    ensures r.Some? <==> key in MonthsMap
  {
    if key in MonthsMap then Some(MonthsMap[key]) else None
  }

  /** The month index the long-form strategy uses for a matched word, or None when the
      `monthIndex !== undefined && monthIndex >= 0` test fails (public/index.js:99, 109-111). */
  function MonthIndex(word: string): Option<int> {
    var monthName := Lower(word);
    var key := monthName[..if |monthName| < 3 then |monthName| else 3];
    var index := if Lookup(key).Some? then Lookup(key) else Lookup(monthName);
    if index.Some? && index.value >= 0 then index else None
  }

  /** Resolution depends only on the first three letters, case-insensitively: a word
      resolves to i exactly when it has at least three letters and they spell the i-th
      abbreviation. The whole-word fallback never finds anything the prefix did not. */
  lemma MonthIndexByPrefix(word: string, i: int)
    ensures MonthIndex(word) == Some(i)
        <==> 0 <= i < 12 && |word| >= 3 && Lower(word[..3]) == Abbreviations[i]
  {
    var monthName := Lower(word);
    AbbreviationsInTable();
    if |word| < 3 {
      ShortKeysAbsent(monthName);
    } else {
      var key := monthName[..3];
      assert key == Lower(word[..3]);
      if key in MonthsMap {
        PrefixOfKey(key);
        assert key[..3] == key;
        AbbreviationsDistinct();
      } else if monthName in MonthsMap {
        PrefixOfKey(monthName);
      }
    }
  }

  /** No table key is shorter than three letters. */
  lemma ShortKeysAbsent(name: string)
    requires |name| < 3
    ensures name !in MonthsMap
  {
  }

  /** The first three letters of every table key spell the abbreviation of its month. */
  lemma PrefixOfKey(name: string)
    requires name in MonthsMap
    ensures 0 <= MonthsMap[name] < 12
    ensures |name| >= 3 && name[..3] == Abbreviations[MonthsMap[name]]
  {
    var i := MonthsMap[name];
    if i < 3 {
      PrefixOfKeyQ1(name);
    } else if i < 6 {
      PrefixOfKeyQ2(name);
    } else if i < 9 {
      PrefixOfKeyQ3(name);
    } else {
      PrefixOfKeyQ4(name);
    }
  }

  lemma PrefixOfKeyQ1(name: string)
    requires name in MonthsMap && 0 <= MonthsMap[name] < 3
    ensures |name| >= 3 && name[..3] == Abbreviations[MonthsMap[name]]
  {
    if name == "jan" {
      assert name[..3] == "jan";
    } else if name == "january" {
      assert name[..3] == "jan";
    } else if name == "feb" {
      assert name[..3] == "feb";
    } else if name == "february" {
      assert name[..3] == "feb";
    } else if name == "mar" {
      assert name[..3] == "mar";
    } else if name == "march" {
      assert name[..3] == "mar";
    }
  }

  lemma PrefixOfKeyQ2(name: string)
    requires name in MonthsMap && 3 <= MonthsMap[name] < 6
    ensures |name| >= 3 && name[..3] == Abbreviations[MonthsMap[name]]
  {
    if name == "apr" {
      assert name[..3] == "apr";
    } else if name == "april" {
      assert name[..3] == "apr";
    } else if name == "may" {
      assert name[..3] == "may";
    } else if name == "jun" {
      assert name[..3] == "jun";
    } else if name == "june" {
      assert name[..3] == "jun";
    }
  }

  lemma PrefixOfKeyQ3(name: string)
    requires name in MonthsMap && 6 <= MonthsMap[name] < 9
    ensures |name| >= 3 && name[..3] == Abbreviations[MonthsMap[name]]
  {
    if name == "jul" {
      assert name[..3] == "jul";
    } else if name == "july" {
      assert name[..3] == "jul";
    } else if name == "aug" {
      assert name[..3] == "aug";
    } else if name == "august" {
      assert name[..3] == "aug";
    } else if name == "sep" {
      assert name[..3] == "sep";
    } else if name == "sept" {
      assert name[..3] == "sep";
    } else if name == "september" {
      assert name[..3] == "sep";
    }
  }

  lemma PrefixOfKeyQ4(name: string)
    requires name in MonthsMap && 9 <= MonthsMap[name] < 12
    ensures |name| >= 3 && name[..3] == Abbreviations[MonthsMap[name]]
  {
    if name == "oct" {
      assert name[..3] == "oct";
    } else if name == "october" {
      assert name[..3] == "oct";
    } else if name == "nov" {
      assert name[..3] == "nov";
    } else if name == "november" {
      assert name[..3] == "nov";
    } else if name == "dec" {
      assert name[..3] == "dec";
    } else if name == "december" {
      assert name[..3] == "dec";
    }
  }

  /** The table maps each abbreviation to its position in calendar order. */
  lemma AbbreviationsInTable()
    ensures forall i :: 0 <= i < 12 ==> Abbreviations[i] in MonthsMap && MonthsMap[Abbreviations[i]] == i
  {
  }

  lemma AbbreviationsDistinct()
    ensures forall i, j :: 0 <= i < j < 12 ==> Abbreviations[i] != Abbreviations[j]
  {
  }

  lemma AbbreviationsLowerCase(i: int)
    requires 0 <= i < 12
    ensures Lower(Abbreviations[i]) == Abbreviations[i]
  {
    var a := Abbreviations[i];
    assert |a| == 3 && forall k :: 0 <= k < 3 ==> 'a' <= a[k] <= 'z';
    assert forall k :: 0 <= k < 3 ==> Lower(a)[k] == a[k];
  }

  /** Every key of the table is reachable: looking it up as a word gives its own entry,
      so `sep`, `sept` and `september` all give 8 and `may` gives 4. */
  lemma EveryKeyResolves(name: string)
    requires name in MonthsMap
    ensures MonthIndex(name) == Some(MonthsMap[name])
  {
    PrefixOfKey(name);
    AbbreviationsLowerCase(MonthsMap[name]);
    MonthIndexByPrefix(name, MonthsMap[name]);
  }

  /** Two words that agree on their first three letters up to case resolve alike. */
  lemma CaseInsensitivePrefix(a: string, b: string)
    requires |a| >= 3 && |b| >= 3 && Lower(a[..3]) == Lower(b[..3])
    ensures MonthIndex(a) == MonthIndex(b)
  {
    if MonthIndex(a).Some? {
      MonthIndexByPrefix(a, MonthIndex(a).value);
      MonthIndexByPrefix(b, MonthIndex(a).value);
    } else if MonthIndex(b).Some? {
      MonthIndexByPrefix(b, MonthIndex(b).value);
      MonthIndexByPrefix(a, MonthIndex(b).value);
    }
  }
}
