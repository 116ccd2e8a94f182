/** The Android add/edit-contact screen: pre-filling from the launching
    intent, naming the capture files, and the checks of "Salvar contato". */
module AdicionarContatoActivity {
  import opened Wrappers
  import Text
  import opened Preferences
  import opened ContatosAdapter

  /** The two kinds of capture, each with its own folder, prefix and suffix. */
  datatype Capture = Foto | Video
  {
    /** The `getExternalFilesDir` type. */
    function MediaFolder(): string {
      match this
      case Foto => "Pictures"
      case Video => "Movies"
    }

    function Prefix(): string {
      match this
      case Foto => "FOTO_"
      case Video => "VIDEO_"
    }

    function Suffix(): string {
      match this
      case Foto => ".jpg"
      case Video => ".mp4"
    }
  }

  const AppFolder: string := "AgendaSegura"

  /** `File(getExternalFilesDir(type), "AgendaSegura")`, where
      `externalFilesDir` maps a media type to the app's external files
      directory for it. */
  function CaptureDirectory(kind: Capture, externalFilesDir: string -> string): (dir: string)
    ensures Text.StartsWith(dir, externalFilesDir(kind.MediaFolder()))
    ensures Text.EndsWith(dir, "/" + AppFolder)
  {
    externalFilesDir(kind.MediaFolder()) + "/" + AppFolder
  }

  /** `File.createTempFile(kind prefix + timestamp + "_", suffix, dir)`: the
      platform inserts a generated `unique` part between prefix and
      suffix. */
  function CaptureFileName(kind: Capture, timestamp: string, unique: string): (name: string)
    ensures Text.StartsWith(name, kind.Prefix() + timestamp + "_")
    ensures Text.EndsWith(name, kind.Suffix())
    ensures |name| == |kind.Prefix()| + |timestamp| + 1 + |unique| + |kind.Suffix()|
  {
    kind.Prefix() + timestamp + "_" + unique + kind.Suffix()
  }

  /** A photo name and a video name never coincide, whatever their
      timestamps and unique parts. */
  lemma PhotoAndVideoNamesDiffer(ts1: string, u1: string, ts2: string, u2: string)
    ensures CaptureFileName(Foto, ts1, u1) != CaptureFileName(Video, ts2, u2)
  {
    var f := CaptureFileName(Foto, ts1, u1);
    var v := CaptureFileName(Video, ts2, u2);
    assert f[0] == 'F' && v[0] == 'V';
  }

  /** The name decides its timestamp and unique part, once their lengths are
      fixed (the timestamp pattern `yyyyMMdd_HHmmss` always has 15
      characters). */
  lemma CaptureFileNameInjective(kind: Capture, ts1: string, u1: string, ts2: string, u2: string)
    requires |ts1| == |ts2|
    requires CaptureFileName(kind, ts1, u1) == CaptureFileName(kind, ts2, u2)
    ensures ts1 == ts2 && u1 == u2
  {
    var p, n := |kind.Prefix()|, CaptureFileName(kind, ts1, u1);
    assert n == CaptureFileName(kind, ts2, u2);
    assert |u1| == |u2|;
    forall i | 0 <= i < |ts1|
      ensures ts1[i] == ts2[i]
    {
      assert n[p + i] == ts1[i] && n[p + i] == ts2[i];
    }
    forall i | 0 <= i < |u1|
      ensures u1[i] == u2[i]
    {
      var k := p + |ts1| + 1 + i;
      assert n[k] == u1[i] && n[k] == u2[i];
    }
  }

  /** What "Salvar contato" ends with: the message of the first failing
      check, or the record that would be saved. */
  datatype SaveOutcome = SaveError(message: string) | Saved(contato: Contato)

  const NomeObrigatorio: string := "Nome é obrigatório!"
  const TelefoneObrigatorio: string := "Telefone é obrigatório!"

  /** The checks of `salvarContato()`: name first, then phone, both after
      trimming; on success the record holds the trimmed texts, the switch
      state and the captured paths. */
  function NovoContato(nome: string, telefone: string, numeroOculto: bool,
                       caminhoFoto: Option<string>, caminhoVideo: Option<string>): (r: SaveOutcome)
    ensures r == SaveError(NomeObrigatorio) <==> Text.Trim(nome) == []
    ensures r == SaveError(TelefoneObrigatorio) <==> Text.Trim(nome) != [] && Text.Trim(telefone) == []
    ensures r.Saved? <==> Text.Trim(nome) != [] && Text.Trim(telefone) != []
    ensures r.Saved? ==>
      && r.contato.nome == Text.Trim(nome) && r.contato.telefone == Text.Trim(telefone)
      && r.contato.numeroOculto == numeroOculto
      && r.contato.fotoCaminho == caminhoFoto && r.contato.videoCaminho == caminhoVideo
  {
    var n := Text.Trim(nome);
    var t := Text.Trim(telefone);
    if n == [] then SaveError(NomeObrigatorio)
    else if t == [] then SaveError(TelefoneObrigatorio)
    else Saved(Contato(n, t, numeroOculto, caminhoFoto, caminhoVideo))
  }

  /** Whitespace around the typed name or phone never changes the outcome. */
  lemma NovoContatoIgnoresPadding(nome: string, telefone: string, oculto: bool,
                                  foto: Option<string>, video: Option<string>,
                                  a: string, b: string, c: string, d: string)
    requires Text.AllWhitespace(a) && Text.AllWhitespace(b) && Text.AllWhitespace(c) && Text.AllWhitespace(d)
    ensures NovoContato(a + nome + b, c + telefone + d, oculto, foto, video) == NovoContato(nome, telefone, oculto, foto, video)
  {
    Text.TrimIgnoresPadding(a, nome, b);
    Text.TrimIgnoresPadding(c, telefone, d);
  }

  /** A saved record is already trimmed: saving it again from its own texts
      gives it back. */
  lemma NovoContatoIdempotent(nome: string, telefone: string, oculto: bool,
                              foto: Option<string>, video: Option<string>)
    requires NovoContato(nome, telefone, oculto, foto, video).Saved?
    ensures
      var c := NovoContato(nome, telefone, oculto, foto, video).contato;
      NovoContato(c.nome, c.telefone, c.numeroOculto, c.fotoCaminho, c.videoCaminho) == Saved(c)
  {
    Text.TrimIdempotent(nome);
    Text.TrimIdempotent(telefone);
  }

  class AdicionarContatoActivity {
    var etNome: string
    var etTelefone: string
    var switchNumeroOculto: bool
    var caminhoFoto: Option<string>
    var caminhoVideo: Option<string>

    constructor ()
      ensures etNome == "" && etTelefone == "" && !switchNumeroOculto
      ensures caminhoFoto == None && caminhoVideo == None
    {
      etNome, etTelefone, switchNumeroOculto := "", "", false;
      caminhoFoto, caminhoVideo := None, None;
    }

    /** `carregarDadosContato()`: a name or phone extra that is present
        replaces its field and an absent one leaves the field as it is; the
        switch takes the `contato_oculto` extra, false when absent. */
    method CarregarDadosContato(nome: Option<string>, telefone: Option<string>, oculto: Option<bool>)
      modifies this
      ensures etNome == if nome.Some? then nome.value else old(etNome)
      ensures etTelefone == if telefone.Some? then telefone.value else old(etTelefone)
      ensures switchNumeroOculto == (oculto.Some? && oculto.value)
      ensures caminhoFoto == old(caminhoFoto) && caminhoVideo == old(caminhoVideo)
    {
      if nome.Some? {
        etNome := nome.value;
      }
      if telefone.Some? {
        etTelefone := telefone.value;
      }
      switchNumeroOculto := oculto.GetOr(false);
    }

    /** `criarArquivoFoto()` / `criarArquivoVideo()`: the new file's absolute
        path is remembered in `caminhoFoto` or `caminhoVideo` and returned;
        a failure to create it returns nothing and leaves both paths. */
    method CriarArquivo(kind: Capture, externalFilesDir: string -> string, timestamp: string, unique: string, fault: bool)
      returns (arquivo: Option<string>)
      modifies this
      ensures etNome == old(etNome) && etTelefone == old(etTelefone)
      ensures switchNumeroOculto == old(switchNumeroOculto)
      ensures fault ==> arquivo == None
      ensures !fault ==> arquivo == Some(CaptureDirectory(kind, externalFilesDir) + "/" + CaptureFileName(kind, timestamp, unique))
      ensures caminhoFoto == if kind == Foto && !fault then arquivo else old(caminhoFoto)
      ensures caminhoVideo == if kind == Video && !fault then arquivo else old(caminhoVideo)
    {
      if fault {
        return None;
      }
      var path := CaptureDirectory(kind, externalFilesDir) + "/" + CaptureFileName(kind, timestamp, unique);
      if kind == Foto {
        caminhoFoto := Some(path);
      } else {
        caminhoVideo := Some(path);
      }
      arquivo := Some(path);
    }

    /** `salvarContato()`: the outcome of the checks on the current fields.
        The preferences it opens once both checks pass are only read, and
        what it reads is never used, so they are not a parameter here. */
    method SalvarContato() returns (r: SaveOutcome)
      ensures r == NovoContato(etNome, etTelefone, switchNumeroOculto, caminhoFoto, caminhoVideo)
    {
      r := NovoContato(etNome, etTelefone, switchNumeroOculto, caminhoFoto, caminhoVideo);
    }
  }
}
