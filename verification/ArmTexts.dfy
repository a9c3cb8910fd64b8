/** What `canonical`'s expressions for an arm of a phi find in its text, `[ operand, %block ]`. */
module ArmTexts {
  import opened IrFunctions

  ghost function PieceText(p: Piece): string {
    if p.Words? then p.text else "%" + p.name.text
  }

  ghost function OperandText(pieces: seq<Piece>): string {
    if pieces == [] then "" else PieceText(pieces[0]) + OperandText(pieces[1..])
  }

  ghost function ArmText(a: Arm): string {
    "[ " + OperandText(a.operand) + ", %" + a.block.text + " ]"
  }

  /** A character of `[\w.$-]`. */
  ghost predicate WordChar(c: char) {
    'a' <= c <= 'z' || 'A' <= c <= 'Z' || '0' <= c <= '9' || c == '_' || c == '.' || c == '$' || c == '-'
  }

  ghost predicate Word(s: string) {
    s != "" && forall i :: 0 <= i < |s| ==> WordChar(s[i])
  }

  ghost predicate NamedByWords(a: Arm) {
    Word(a.block.text) && forall i :: 0 <= i < |a.operand| && a.operand[i].Named? ==> Word(a.operand[i].name.text)
  }

  /** The whole of `t` is found by `\[ [^\]]* \]`. */
  ghost predicate ArmFound(t: string) {
    exists inside :: t == "[ " + inside + " ]" && ']' !in inside
  }

  /** The whole of `t` is matched by `\[ ([^,\]]+), %([\w.$-]+) \]`, the second group being `y`. */
  ghost predicate LabelMatched(t: string, y: string) {
    exists x :: t == "[ " + x + ", %" + y + " ]" && x != "" && ',' !in x && ']' !in x && Word(y)
  }

  lemma {:induction false} OperandChars(pieces: seq<Piece>, c: char)
    requires !WordChar(c) && c != '%'
    requires forall i :: 0 <= i < |pieces| && pieces[i].Named? ==> Word(pieces[i].name.text)
    ensures c in OperandText(pieces) <==> HasChar(pieces, c)
    decreases |pieces|
  {
    if pieces == [] {
    } else {
      var first, rest := pieces[0], pieces[1..];
      OperandChars(rest, c);
      assert HasChar(pieces, c) <==> (first.Words? && c in first.text) || HasChar(rest, c) by {
        HasCharLess(pieces, c);
      }
      assert c in PieceText(first) <==> first.Words? && c in first.text;
    }
  }

  lemma HasCharLess(pieces: seq<Piece>, c: char)
    requires pieces != []
    ensures HasChar(pieces, c) <==> (pieces[0].Words? && c in pieces[0].text) || HasChar(pieces[1..], c)
  {
    var rest := pieces[1..];
    if HasChar(rest, c) {
      var i :| 0 <= i < |rest| && rest[i].Words? && c in rest[i].text;
      assert pieces[i + 1] == rest[i];
    }
    if HasChar(pieces, c) {
      var i :| 0 <= i < |pieces| && pieces[i].Words? && c in pieces[i].text;
      if i > 0 { assert rest[i - 1] == pieces[i]; }
    }
  }

  lemma Inside(s: string, t: string)
    requires "[ " + s + " ]" == "[ " + t + " ]"
    ensures s == t
  {
    var whole := "[ " + s + " ]";
    assert s == whole[2..|whole| - 2] == t;
  }

  /** An arm is found exactly when it is not `Bracketed`. */
  lemma FoundIff(a: Arm)
    requires NamedByWords(a)
    ensures ArmFound(ArmText(a)) <==> !Bracketed(a)
  {
    OperandChars(a.operand, ']');
    var operand, block := OperandText(a.operand), a.block.text;
    hide HasChar, OperandText;
    var inside := operand + ", %" + block;
    assert ']' in inside <==> ']' in operand;
    assert ArmText(a) == "[ " + inside + " ]" by { Whole(operand, block); }
    hide ArmText, Word;
    if ArmFound(ArmText(a)) {
      var found :| ArmText(a) == "[ " + found + " ]" && ']' !in found;
      Inside(found, inside);
    }
  }

  lemma Whole(x: string, y: string)
    ensures "[ " + x + ", %" + y + " ]" == "[ " + (x + ", %" + y) + " ]"
  {
  }

  /** Its block, and nothing else, is renamed as a label exactly when it is a `LabelPlace`. */
  lemma MatchedIff(a: Arm, y: string)
    requires NamedByWords(a) && OperandText(a.operand) != ""
    ensures LabelMatched(ArmText(a), y) <==> LabelPlace(a) && y == a.block.text
  {
    var operand, block := OperandText(a.operand), a.block.text;
    OperandChars(a.operand, ']');
    OperandChars(a.operand, ',');
    hide HasChar, OperandText, Word;
    if LabelMatched(ArmText(a), y) {
      var x :| ArmText(a) == "[ " + x + ", %" + y + " ]" && x != "" && ',' !in x && ']' !in x && Word(y);
      SameComma(x, y, operand, block);
    }
  }

  /** The comma before the block is the only one after which a block's name can follow. */
  lemma SameComma(x: string, y: string, operand: string, block: string)
    requires "[ " + x + ", %" + y + " ]" == "[ " + operand + ", %" + block + " ]"
    requires Word(y) && Word(block)
    ensures x == operand && y == block
  {
    Whole(x, y);
    Whole(operand, block);
    var s := x + ", %" + y;
    Inside(s, operand + ", %" + block);
    LastPercent(x, y);
    LastPercent(operand, block);
    assert |x| == |operand|;
    assert s[..|x|] == x && s[..|x|] == operand && s[|x| + 3..] == y && s[|x| + 3..] == block;
  }

  lemma LastPercent(x: string, y: string)
    requires Word(y)
    ensures var s := x + ", %" + y; s[|x| + 2] == '%' && forall k :: |x| + 2 < k < |s| ==> s[k] != '%'
  {
    var s := x + ", %" + y;
    assert s[|x| + 3..] == y;
    forall k | |x| + 2 < k < |s|
      ensures s[k] != '%'
    {
      assert s[k] == y[k - |x| - 3];
    }
  }
}
