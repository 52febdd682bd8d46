/**
 * Rendering of a button bitmask as a human-readable list of button names.
 *
 * Both renderers of the service (the racing-wheel one and the gamepad one)
 * test a fixed table of single-bit flags in order, append the name of every
 * flag that is set followed by ", ", and finally drop the trailing ", ".
 * This module gives the reference meaning of such a renderer for any table
 * (the names of the set flags, in table order, joined by ", ") and proves its
 * properties once; the two concrete renderers are proved equal to it.
 */
module ButtonText {

  /** One row of a renderer's table: the bit it tests and the name it prints. */
  datatype Flag = Flag(bit: bv32, token: string)

  const Separator: string := ", "

  /** The flag test the renderers use: every bit of `bit` is set in `mask`. */
  predicate Has(mask: bv32, bit: bv32) {
    (mask & bit) == bit
  }

  predicate SingleBit(b: bv32) {
    b != 0 && (b & (b - 1)) == 0
  }

  /** A name that can be printed and does not itself end in a blank. */
  predicate PrintableToken(t: string) {
    |t| > 0 && t[|t| - 1] != ' '
  }

  /** What the renderers rely on about their tables: distinct single bits, distinct printable names. */
  ghost predicate WellFormed(table: seq<Flag>) {
    && (forall i :: 0 <= i < |table| ==> SingleBit(table[i].bit) && PrintableToken(table[i].token))
    && (forall i, j :: 0 <= i < j < |table| ==> table[i].bit != table[j].bit && table[i].token != table[j].token)
  }

  /** What one test appends: the flag's name and a separator if the flag is set, nothing otherwise. */
  function Piece(mask: bv32, f: Flag): string {
    if Has(mask, f.bit) then f.token + Separator else ""
  }

  /** The working string after the first `k` tests of the table, before the trailing separator is dropped. */
  function Pending(mask: bv32, table: seq<Flag>, k: nat): string
    requires k <= |table|
  {
    if k == 0 then "" else Pending(mask, table, k - 1) + Piece(mask, table[k - 1])
  }

  /** The names of the flags among the first `k` rows that are set in `mask`, in table order. */
  function Selected(mask: bv32, table: seq<Flag>, k: nat): (ts: seq<string>)
    requires k <= |table|
    ensures |ts| <= k
  {
    if k == 0 then []
    else Selected(mask, table, k - 1) + (if Has(mask, table[k - 1].bit) then [table[k - 1].token] else [])
  }

  /** Names joined by the separator, with nothing after the last one. */
  function Join(ts: seq<string>): string {
    if |ts| == 0 then ""
    else if |ts| == 1 then ts[0]
    else Join(ts[..|ts| - 1]) + Separator + ts[|ts| - 1]
  }

  /** The text a renderer must produce for `mask`. */
  function Render(mask: bv32, table: seq<Flag>): string {
    Join(Selected(mask, table, |table|))
  }

  predicate EndsWithSeparator(s: string) {
    |s| >= 2 && s[|s| - 2..] == Separator
  }

  /**
   * The working string is empty exactly when no flag was found set, and
   * otherwise it is the joined names followed by one separator, so removing
   * its last two characters leaves the joined names.
   */
  lemma {:induction false} PendingIsJoinedPlusSeparator(mask: bv32, table: seq<Flag>, k: nat)
    requires k <= |table|
    ensures Selected(mask, table, k) == [] ==> Pending(mask, table, k) == ""
    ensures Selected(mask, table, k) != [] ==> Pending(mask, table, k) == Join(Selected(mask, table, k)) + Separator
  {
    if k > 0 {
      PendingIsJoinedPlusSeparator(mask, table, k - 1);
      var prev := Selected(mask, table, k - 1);
      var p := Pending(mask, table, k - 1);
      var f := table[k - 1];
      assert Pending(mask, table, k) == p + Piece(mask, f);
      if Has(mask, f.bit) {
        assert Selected(mask, table, k) == prev + [f.token];
        assert Piece(mask, f) == f.token + Separator;
        if prev == [] {
          assert [] + [f.token] == [f.token];
        } else {
          JoinAppend(prev, f.token);
        }
      } else {
        assert Selected(mask, table, k) == prev + [] == prev;
        assert Pending(mask, table, k) == p + "" == p;
      }
    }
  }

  /** Appending a name to a non-empty list extends its join by a separator and that name. */
  lemma JoinAppend(ts: seq<string>, t: string)
    requires ts != []
    ensures (Join(ts) + Separator) + (t + Separator) == Join(ts + [t]) + Separator
  {
    var us := ts + [t];
    assert us[..|us| - 1] == ts;
    assert Join(us) == Join(ts) + Separator + t;
  }

  /** Dropping the two separator characters of a non-empty working string yields the rendered text. */
  lemma DropSeparator(mask: bv32, table: seq<Flag>)
    ensures var p := Pending(mask, table, |table|);
      (p == "" <==> Selected(mask, table, |table|) == [])
      && (p != "" ==> |p| >= 2 && p[..|p| - 1][..|p| - 2] == Render(mask, table))
  {
    PendingIsJoinedPlusSeparator(mask, table, |table|);
  }

  /** A non-empty join ends with its last name. */
  lemma {:induction false} JoinEndsWithLast(ts: seq<string>)
    requires ts != []
    ensures |Join(ts)| >= |ts[|ts| - 1]|
    ensures Join(ts)[|Join(ts)| - |ts[|ts| - 1]|..] == ts[|ts| - 1]
  {
  }

  /** Each name in the selection comes from a row whose flag is set, and each set row contributes its name. */
  lemma {:induction false} SelectedMembership(mask: bv32, table: seq<Flag>, k: nat, t: string)
    requires k <= |table|
    ensures t in Selected(mask, table, k) <==> exists i :: 0 <= i < k && table[i].token == t && Has(mask, table[i].bit)
  {
    if k > 0 {
      SelectedMembership(mask, table, k - 1, t);
    }
  }

  /** The selection is empty exactly when none of the tested flags is set. */
  lemma {:induction false} SelectedEmptyIff(mask: bv32, table: seq<Flag>, k: nat)
    requires k <= |table|
    ensures Selected(mask, table, k) == [] <==> forall i :: 0 <= i < k ==> !Has(mask, table[i].bit)
  {
    if k > 0 {
      SelectedEmptyIff(mask, table, k - 1);
    }
  }

  /** A selection over fewer rows is a prefix of a selection over more rows. */
  lemma {:induction false} SelectedPrefix(mask: bv32, table: seq<Flag>, k: nat, k': nat)
    requires k <= k' <= |table|
    ensures Selected(mask, table, k) <= Selected(mask, table, k')
  {
    if k < k' {
      SelectedPrefix(mask, table, k, k' - 1);
    }
  }

  /** The rendered text is empty exactly when none of the table's flags is set in the mask. */
  lemma RenderEmptyIff(mask: bv32, table: seq<Flag>)
    requires WellFormed(table)
    ensures Render(mask, table) == "" <==> forall i :: 0 <= i < |table| ==> !Has(mask, table[i].bit)
  {
    var ts := Selected(mask, table, |table|);
    SelectedEmptyIff(mask, table, |table|);
    if ts != [] {
      var last := ts[|ts| - 1];
      JoinEndsWithLast(ts);
      SelectedMembership(mask, table, |table|, last);
    }
  }

  /** The rendered text never ends with a separator: the last two characters are gone whenever a name was appended. */
  lemma RenderNoTrailingSeparator(mask: bv32, table: seq<Flag>)
    requires WellFormed(table)
    ensures !EndsWithSeparator(Render(mask, table))
  {
    var ts := Selected(mask, table, |table|);
    var r := Render(mask, table);
    if ts != [] {
      var last := ts[|ts| - 1];
      JoinEndsWithLast(ts);
      SelectedMembership(mask, table, |table|, last);
      var i :| 0 <= i < |table| && table[i].token == last && Has(mask, table[i].bit);
      assert r[|r| - 1] == last[|last| - 1];
    }
  }

  /** With distinct names, a name appears in the rendered list exactly when its flag is set. */
  lemma TokenPresentIff(mask: bv32, table: seq<Flag>, i: nat)
    requires WellFormed(table) && i < |table|
    ensures table[i].token in Selected(mask, table, |table|) <==> Has(mask, table[i].bit)
  {
    SelectedMembership(mask, table, |table|, table[i].token);
  }

  /**
   * Order: the name of a set flag sits at the position given by the number of
   * set flags before it in the table, so names come out in table order.
   */
  lemma TokenPosition(mask: bv32, table: seq<Flag>, i: nat)
    requires i < |table| && Has(mask, table[i].bit)
    ensures var before := |Selected(mask, table, i)|;
      before < |Selected(mask, table, |table|)| && Selected(mask, table, |table|)[before] == table[i].token
  {
    SelectedPrefix(mask, table, i + 1, |table|);
  }

  /** Clearing bits outside `keep` does not change a test of a bit inside `keep`. */
  lemma MaskingKeepsTest(mask: bv32, keep: bv32, b: bv32)
    requires (b & keep) == b
    ensures Has(mask & keep, b) == Has(mask, b)
  {
  }

  /** Clearing bits outside `keep` leaves the selection unchanged when every tested bit lies inside `keep`. */
  lemma {:induction false} SelectedIgnoresMasked(mask: bv32, keep: bv32, table: seq<Flag>, k: nat)
    requires k <= |table|
    requires forall i :: 0 <= i < k ==> (table[i].bit & keep) == table[i].bit
    ensures Selected(mask & keep, table, k) == Selected(mask, table, k)
  {
    if k > 0 {
      SelectedIgnoresMasked(mask, keep, table, k - 1);
      MaskingKeepsTest(mask, keep, table[k - 1].bit);
    }
  }

  /** Every bit the table tests lies inside `keep`. */
  ghost predicate Covers(keep: bv32, table: seq<Flag>) {
    forall i :: 0 <= i < |table| ==> (table[i].bit & keep) == table[i].bit
  }

  /** Bits outside the table do not affect the rendered text: masking them off first renders the same. */
  lemma RenderIgnoresUncovered(mask: bv32, keep: bv32, table: seq<Flag>)
    requires Covers(keep, table)
    ensures Render(mask & keep, table) == Render(mask, table)
  {
    SelectedIgnoresMasked(mask, keep, table, |table|);
  }

  /** Two distinct single bits never test positive for each other. */
  lemma SingleBitsExclusive(a: bv32, b: bv32)
    requires SingleBit(a) && SingleBit(b) && a != b
    ensures !Has(a, b)
  {
  }

  /** A mask that is exactly one row's bit selects exactly that row's name. */
  lemma {:induction false} SelectedSingleFlag(table: seq<Flag>, i: nat, k: nat)
    requires WellFormed(table) && i < |table| && k <= |table|
    ensures Selected(table[i].bit, table, k) == if i < k then [table[i].token] else []
  {
    if k > 0 {
      SelectedSingleFlag(table, i, k - 1);
      var m := table[i].bit;
      var f := table[k - 1];
      var prev := Selected(m, table, k - 1);
      if k - 1 == i {
        assert Has(m, f.bit);
        assert prev == [];
        assert Selected(m, table, k) == [] + [f.token] == [f.token];
      } else {
        assert SingleBit(m) && SingleBit(f.bit) && m != f.bit;
        SingleBitsExclusive(m, f.bit);
        assert Selected(m, table, k) == prev + [] == prev;
      }
    }
  }

  /** Rendering a single flag's bit prints just that flag's name. */
  lemma RenderSingleFlag(table: seq<Flag>, i: nat)
    requires WellFormed(table) && i < |table|
    ensures Render(table[i].bit, table) == table[i].token
  {
    SelectedSingleFlag(table, i, |table|);
  }

  /**
   * One test of a renderer: append the name of row `k` of the table and a
   * separator when that row's flag is set in the mask. Applied to the
   * working string after the first `k` tests, it yields the working string
   * after `k + 1` tests.
   */
  method AppendIfSet(text: string, mask: bv32, table: seq<Flag>, k: nat) returns (r: string)
    requires k < |table| && text == Pending(mask, table, k)
    ensures r == text + Piece(mask, table[k]) == Pending(mask, table, k + 1)
  {
    assert Pending(mask, table, k + 1) == text + Piece(mask, table[k]);
    r := text;
    if (mask & table[k].bit) == table[k].bit {
      r := r + (table[k].token + ", ");
    }
  }

  /**
   * The last step of a renderer: remove the trailing ", " with two pops when
   * anything was appended. Applied to the working string after all tests, it
   * yields the rendered text.
   */
  method DropTrailingSeparator(text: string, ghost mask: bv32, ghost table: seq<Flag>) returns (r: string)
    requires text == Pending(mask, table, |table|)
    ensures r == Render(mask, table)
  {
    DropSeparator(mask, table);
    r := text;
    if r != "" {
      r := r[..|r| - 1];
      r := r[..|r| - 1];
      assert r == text[..|text| - 1][..|text| - 2];
    }
  }
}
