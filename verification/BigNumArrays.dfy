/** The word macros applied along arrays, whichever form of them is compiled. */
module BigNumArrays {
  import opened BigNumWords

  /** The forms chosen by BN_LLONG, BN_UMULT_LOHI or BN_UMULT_HIGH, and neither. */
  datatype Form = LongLong | HighProduct | HalfWords

  /** The two words of `a * w + r + c`. */
  function MulAddResult(b: nat, r: nat, a: nat, w: nat, c: nat): (nat, nat)
    requires b > 0
  {
    ((a * w + r + c) % b, (a * w + r + c) / b)
  }

  /** mul_add: every form gives the same two words. */
  method MulAdd(form: Form, cfg: Config, r: nat, a: nat, w: nat, c: nat) returns (r': nat, c': nat)
    requires r < cfg.Base() && a < cfg.Base() && w < cfg.Base() && c < cfg.Base()
    ensures (r', c') == MulAddResult(cfg.Base(), r, a, w, c)
    ensures r' + c' * cfg.Base() == a * w + r + c && r' < cfg.Base() && c' < cfg.Base()
  {
    var half, b := cfg.Half(), cfg.Base();
    assert b == half * half && half > 0;
    hide *;
    match form {
      case LongLong => r', c' := MulAddLLong(cfg, r, a, w, c);
      case HighProduct => r', c' := MulAddUMult(cfg, r, a, w, c);
      case HalfWords =>
        SplitWord(w, half);
        r', c' := MulAddHalf(cfg, r, a, w % half, w / half % half, c);
    }
    FormsAgree(b, r, a, w, c, r', c');
  }

  /** The two words are determined by their value, so all forms, meeting one equation, agree. */
  lemma FormsAgree(b: nat, r: nat, a: nat, w: nat, c: nat, r': nat, c': nat)
    requires r' + c' * b == a * w + r + c && r' < b
    ensures (r', c') == MulAddResult(b, r, a, w, c)
  {
    DivModUnique(a * w + r + c, b, c', r');
  }

  /** bn_mul_add_words: the whole array times a word is added to another array, in place; the two
      may be the same.  The turns of the source's loop are written out four at a time. */
  method MulAddWords(form: Form, cfg: Config, rp: array<nat>, ap: array<nat>, num: nat, w: nat) returns (c: nat)
    requires num <= rp.Length && num <= ap.Length && w < cfg.Base()
    requires AllWords(rp[..num], cfg.Base()) && AllWords(ap[..num], cfg.Base())
    modifies rp
    ensures Words(rp[..num], cfg.Base()) + c * Power(cfg.Base(), num)
            == old(Words(rp[..num], cfg.Base())) + old(Words(ap[..num], cfg.Base())) * w
    ensures AllWords(rp[..num], cfg.Base()) && c < cfg.Base()
    ensures rp[num..] == old(rp[num..])
  {
    var b := cfg.Base();
    ghost var rs, ws := rp[..num], ap[..num];
    c := 0;
    var i := 0;
    assert rp[..0] == rs[..0] == ws[..0] == [];
    while i < num
      invariant 0 <= i <= num && c < b && b == cfg.Base()
      invariant MulAddSoFar(rp[..i], rs[..i], ws[..i], w, c, b)
      invariant AllWords(rp[..i], b) && rp[i..] == old(rp[i..])
      invariant forall k :: i <= k < num ==> rp[k] == rs[k] && ap[k] == ws[k]
    {
      hide *;
      ghost var before := rp[..i];
      ghost var behind := rp[i+1..];
      WordAt(rs, i, b);
      WordAt(ws, i, b);
      var r', c' := MulAdd(form, cfg, rp[i], ap[i], w, c);
      MulAddNext(before, rs[..i], ws[..i], rs[i], ws[i], w, c, r', c', b);
      rp[i] := r';
      assert rp[..i+1] == before + [r'] && rs[..i+1] == rs[..i] + [rs[i]] && ws[..i+1] == ws[..i] + [ws[i]];
      assert rp[i+1..] == behind == old(rp[i..])[1..];
      c := c';
      i := i + 1;
    }
    assert rs[..num] == rs && ws[..num] == ws;
  }

  /** The words done so far, with the carry above them. */
  ghost predicate MulAddSoFar(out: seq<nat>, rs: seq<nat>, ws: seq<nat>, w: nat, c: nat, b: nat) {
    |out| == |rs| == |ws| && Words(out, b) + c * Power(b, |out|) == Words(rs, b) + Words(ws, b) * w
  }

  lemma WordAt(ws: seq<nat>, i: nat, b: nat)
    requires i < |ws| && AllWords(ws, b)
    ensures ws[i] < b
  {}

  lemma MulAddNext(out: seq<nat>, rs: seq<nat>, ws: seq<nat>, r: nat, a: nat, w: nat, c: nat, r': nat, c': nat, b: nat)
    requires MulAddSoFar(out, rs, ws, w, c, b) && AllWords(out, b) && r' < b && r' + c' * b == a * w + r + c
    ensures MulAddSoFar(out + [r'], rs + [r], ws + [a], w, c', b) && AllWords(out + [r'], b)
  {
    WordsSnoc(out, r', b);
    WordsSnoc(rs, r, b);
    WordsSnoc(ws, a, b);
    var p := Power(b, |out|);
    PowerStep(c', b, |out| + 1);
    NextValue(Words(out, b), Words(rs, b), Words(ws, b), r, a, w, c, r', c', p, b);
  }

  lemma NextValue(out: nat, rs: nat, ws: nat, r: nat, a: nat, w: nat, c: nat, r': nat, c': nat, p: nat, b: nat)
    requires out + c * p == rs + ws * w && r' + c' * b == a * w + r + c
    ensures out + r' * p + b * (c' * p) == rs + r * p + (ws + a * p) * w
  {
    assert (r' + c' * b) * p == r' * p + b * (c' * p) by {
      assert c' * b * p == b * (c' * p);
    }
    assert (a * w + r + c) * p == a * p * w + r * p + c * p;
    assert (ws + a * p) * w == ws * w + a * p * w;
  }
}
