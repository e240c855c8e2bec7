/**
 * The labelled rows handed over by the CSV loader, and the two functions
 * that take them apart: `separation` (training rows, by label) and
 * `lecture` (development and test rows, into texts and labels).
 */
module Dataset {

  /** One row of a data set: its label, `sentiment` (first column) and its tweet (second column). */
  datatype Row = Row(sentiment: string, text: string)

  /** The only label `separation` treats as positive; any other label is negative. */
  const Positive: string := "positive"

  /** The texts of the rows whose label is (or, for `positive == false`, is not) "positive", in row order. */
  function TextsWithLabel(rows: seq<Row>, positive: bool): seq<string>
  {
    if rows == [] then []
    else
      var last := rows[|rows| - 1];
      TextsWithLabel(rows[..|rows| - 1], positive)
        + (if (last.sentiment == Positive) == positive then [last.text] else [])
  }

  /** The texts of all rows, in row order. */
  function Texts(rows: seq<Row>): (r: seq<string>)
    ensures |r| == |rows|
    ensures forall i :: 0 <= i < |rows| ==> r[i] == rows[i].text
  {
    seq(|rows|, i requires 0 <= i < |rows| => rows[i].text)
  }

  /**
   * Every row goes to exactly one side: the two lists together hold the
   * texts of all the rows, no more and no fewer.
   */
  lemma {:induction false} SeparationPartition(rows: seq<Row>)
    ensures |TextsWithLabel(rows, true)| + |TextsWithLabel(rows, false)| == |rows|
    ensures multiset(TextsWithLabel(rows, true)) + multiset(TextsWithLabel(rows, false)) == multiset(Texts(rows))
  {
    if rows != [] {
      var init := rows[..|rows| - 1];
      SeparationPartition(init);
      assert Texts(rows) == Texts(init) + [rows[|rows| - 1].text];
    }
  }

  /**
   * A text lands on the positive side exactly when some row labelled
   * "positive" carries it, and on the negative side exactly when some row
   * with another label does.
   */
  lemma {:induction false} SeparationLabels(rows: seq<Row>, positive: bool, t: string)
    ensures t in TextsWithLabel(rows, positive) <==>
      exists i :: 0 <= i < |rows| && rows[i].text == t && (rows[i].sentiment == Positive) == positive
  {
    if rows != [] {
      var init := rows[..|rows| - 1];
      SeparationLabels(init, positive, t);
      assert forall i :: 0 <= i < |init| ==> init[i] == rows[i];
    }
  }

  /**
   * `separation(train_df)`: the texts of the rows labelled exactly
   * "positive" go to `pos`, all the others to `neg`, in row order.
   */
  method Separation(trainDf: seq<Row>) returns (pos: seq<string>, neg: seq<string>)
    ensures pos == TextsWithLabel(trainDf, true)
    ensures neg == TextsWithLabel(trainDf, false)
    ensures |pos| + |neg| == |trainDf|
  {
    pos := [];
    neg := [];
    for i := 0 to |trainDf|
      invariant pos == TextsWithLabel(trainDf[..i], true)
      invariant neg == TextsWithLabel(trainDf[..i], false)
    {
      assert trainDf[..i + 1][..i] == trainDf[..i];
      if trainDf[i].sentiment == Positive {
        pos := pos + [trainDf[i].text];
      } else {
        neg := neg + [trainDf[i].text];
      }
    }
    assert trainDf[..|trainDf|] == trainDf;
    SeparationPartition(trainDf);
  }

  /**
   * `lecture(dev_df, test_df)`: the texts and the labels of each data set,
   * position by position, so that each row is the pair of its label and
   * its text.
   */
  method Lecture(devDf: seq<Row>, testDf: seq<Row>)
    returns (tweetsDev: seq<string>, labelDev: seq<string>, tweetsTest: seq<string>, labelTest: seq<string>)
    ensures |tweetsDev| == |labelDev| == |devDf|
    ensures forall i :: 0 <= i < |devDf| ==> devDf[i] == Row(labelDev[i], tweetsDev[i])
    ensures |tweetsTest| == |labelTest| == |testDf|
    ensures forall i :: 0 <= i < |testDf| ==> testDf[i] == Row(labelTest[i], tweetsTest[i])
  {
    tweetsDev, tweetsTest, labelDev, labelTest := [], [], [], [];
    for i := 0 to |devDf|
      invariant |tweetsDev| == |labelDev| == i
      invariant forall k :: 0 <= k < i ==> devDf[k] == Row(labelDev[k], tweetsDev[k])
    {
      tweetsDev := tweetsDev + [devDf[i].text];
      labelDev := labelDev + [devDf[i].sentiment];
    }
    for i := 0 to |testDf|
      invariant |tweetsTest| == |labelTest| == i
      invariant forall k :: 0 <= k < i ==> testDf[k] == Row(labelTest[k], tweetsTest[k])
    {
      tweetsTest := tweetsTest + [testDf[i].text];
      labelTest := labelTest + [testDf[i].sentiment];
    }
  }
}
